# Free IPv4 addresses in a billing database — a Dafny model

The utm5ips scripts compare the address table of a NetUp UTM5 billing
database (`SELECT ip FROM ip_groups WHERE is_deleted=0`) with IPv4 subnets
given on the command line, and print the host addresses that no row holds.

- `src/utm5-free-ips.py` takes one or more subnets. It prints every free host
  of every subnet, subnets in command-line order and hosts in ascending order.
  Its `-a` ("list all") and `-m` (mode) options are parsed but never read.
- `src/billing-free-ips.py` takes one subnet as `argv[1]`. It prints the lowest
  free host and exits, unless `argv[2]` is `all` in any letter case, in which
  case it prints every free host. Without an argument it prints a usage text.

The model is split the way the scripts are built:

- `results.dfy` (`Results`): `Option`, `Result`, and the exceptions the modelled
  paths can raise.
- `ipv4.dfy` (`Ipv4`): addresses as naturals below 2^32. Networks are
  (base, prefix) pairs in the prefix notation of section 3.1 of RFC 4632. The
  module has the strict check of `ipaddress.ip_network`, the broadcast
  address, and `Hosts`, the ascending sequence that `hosts()` yields.
- `allocation.dfy` (`Allocation`): `ipaddress.ip_address` applied to each row
  of the query. A row below 2^32 becomes an IPv4 address. A row in
  [2^32, 2^128) becomes an IPv6 address, which never equals an IPv4 host.
  Anything else raises.
- `free_ips.dfy` (`FreeIps`): the shared computation. `Unallocated` filters a
  walk of candidate addresses. `Free(net, inUse, all)` is one subnet in all or
  first-only mode. `FreeAll` handles a list of subnets in order.
- `utm5_free_ips.dfy` (`Utm5FreeIps`): `Report` says what the multi-subnet
  script prints. The `Execute` method mirrors its `main` loops and is proved
  equal to `Report`.
- `billing_free_ips.dfy` (`BillingFreeIps`): `Output` says what the
  single-subnet script prints. The `Execute` method mirrors its `main`,
  including the early exit after the first free host, and is proved equal to
  `Output`.

Both scripts read their database settings from a configuration file before
the query runs. In `src/utm5-free-ips.py` that read cannot succeed as written.
When the `[mysql]` section exists, line 81 calls `.items()` on the list that
`parser.items` returns, which raises `AttributeError`. When the section is
missing, `connect_to_db` returns `None`, and `conn.cursor()` at line 122
raises. So every run of that script that gets past its subnet arguments ends
in an exception before anything is printed. `Utm5FreeIps.Report` and
`Utm5FreeIps.Execute` describe `main` with the configuration read repaired and
the query's rows given. They say what the script would print if line 81
iterated over the pairs directly, as `src/billing-free-ips.py` does. Subnet
errors come before the database is touched, so the model keeps them as
written.

A run's result is either the printed addresses or lines, or the exception that
ended the run. Every modelled exception is raised before the first `print`.
Overlapping subnets are walked independently, so an address that is a host of
two requested subnets is printed once for each of them, as in the script.

## Model

| member | source | states |
|---|---|---|
| `Ipv4.Strict` | src/utm5-free-ips.py:141 | `ip_network` accepts a pair exactly when the prefix is at most 32 and every host bit of the address is zero. A prefix beyond 32 raises the same generic "does not appear to be an IPv4 or IPv6 network" error as unreadable text. A prefix that fits but leaves host bits set raises the host-bits error. |
| `Ipv4.StrictAcceptsOnlyNetworkAddress` | src/billing-free-ips.py:79 | Of all the addresses of a network's block written with that network's prefix, `ip_network` accepts only the network address. Every other one raises the host-bits error. |
| `Ipv4.IpNetwork` | src/billing-free-ips.py:79 | An IPv4 subnet argument yields a network exactly when its text reads as an address/prefix pair that passes the strict check, and that network is valid. It raises the host-bits error exactly when the prefix fits and host bits are set. Every other failure is the generic error. |
| `Ipv4.Broadcast` | src/utm5-free-ips.py:145 | The broadcast address is the last address of the block, 2^(32-prefix) - 1 above the base, with every host bit set. |
| `Ipv4.Hosts` | src/utm5-free-ips.py:145 | `hosts()` is strictly ascending and holds exactly the addresses of `IsHost`. It has 2^(32-prefix) - 2 elements for prefixes up to 30, and 2^(32-prefix) otherwise. |
| `Ipv4.NetworkAndBroadcastExcluded` | src/utm5-free-ips.py:145 | For prefixes up to 30, neither the network address nor the broadcast address is a host. Every host lies strictly between them. |
| `Ipv4.HostsOfTinyNetworks` | src/utm5-free-ips.py:145 | A /31 yields both of its addresses (RFC 3021). A /32 yields its one address. |
| `Allocation.AddressOf` | src/utm5-free-ips.py:127 | `ip_address(value)` is defined exactly for 0 <= value < 2^128, keeps the integer value, and gives an IPv4 address exactly when the value is below 2^32. A negative value raises. |
| `Allocation.FetchAllocated` | src/utm5-free-ips.py:125-127 | The list has one entry per row, in row order, and each entry carries its row's integer value. The conversion succeeds exactly when every row is in range. Otherwise the error is the one raised by the first row out of range. |
| `Allocation.IsAllocated` | src/utm5-free-ips.py:146 | `ip not in ips_from_db` is false exactly when some fetched entry is an IPv4 address with the host's integer value. An IPv6 entry never matches. |
| `Allocation.AllocatedAreRowValues` | src/utm5-free-ips.py:146 | The test `ip not in ips_from_db` fails for an IPv4 host exactly when some row holds that host's integer value. |
| `FreeIps.Unallocated` | src/utm5-free-ips.py:145-147 | The walk prints exactly the candidates absent from the allocated list, never more than it walks, and keeps ascending order. |
| `FreeIps.UnallocatedAppend` | src/utm5-free-ips.py:145-147 | Walking s and then t prints what walking s prints, followed by what walking t prints. |
| `FreeIps.Free` | src/billing-free-ips.py:82-86 | One subnet: every printed address is a free host, the output is ascending, all-mode prints every free host, and first-only mode prints at most one address. |
| `FreeIps.FreeIsAscendingEnumeration` | src/billing-free-ips.py:82-85 | All-mode output equals every ascending sequence whose elements are exactly the free hosts. |
| `FreeIps.AscendingUnique` | src/billing-free-ips.py:82-85 | Two strictly ascending sequences with the same elements are equal. This is what makes the enumeration above unique. |
| `FreeIps.FirstFreeIsLowest` | src/billing-free-ips.py:82-86 | First-only mode prints nothing exactly when every host is allocated. Otherwise it prints one free host, and every host below it is allocated. |
| `FreeIps.NothingAllocatedInNetwork` | src/billing-free-ips.py:82-86 | With none of the subnet's hosts allocated, all-mode prints every host and first-only mode prints the lowest host. |
| `FreeIps.NothingAllocatedPrintsAll` | src/utm5-free-ips.py:145-147 | When none of the candidates is allocated, the walk prints every candidate, in order. |
| `FreeIps.SecondHostIsFirstFree` | src/billing-free-ips.py:82-86 | With 192.168.0.0/24 and 192.168.0.1 allocated, first-only mode prints 192.168.0.2. |
| `FreeIps.AllButFirstHostFree` | src/billing-free-ips.py:82-85 | With 192.168.0.0/24 and 192.168.0.1 allocated, all-mode prints 192.168.0.2 through 192.168.0.254 in order. |
| `FreeIps.FreeAll` | src/utm5-free-ips.py:144-147 | Over a list of subnets, an address is printed exactly when it is unallocated and a host of one of the subnets. |
| `FreeIps.FreeAllSplit` | src/utm5-free-ips.py:144 | The output for a list of subnets is the output for any prefix of the list followed by the output for the rest. |
| `FreeIps.FreeAllExtend` | src/utm5-free-ips.py:144-147 | Adding one more subnet appends that subnet's free hosts to the output. |
| `FreeIps.FlattenMembers` | src/utm5-free-ips.py:144-147 | An address is in the joined per-subnet outputs exactly when it is in one of them. |
| `Utm5FreeIps.ParseNetworks` | src/utm5-free-ips.py:140-141 | Parsing the subnet arguments succeeds exactly when every argument is a valid network. The result then has one network per argument, in order. |
| `Utm5FreeIps.ParsedAreValid` | src/utm5-free-ips.py:141 | Every parsed subnet is a valid network. |
| `Utm5FreeIps.ParseErrorIsFirst` | src/utm5-free-ips.py:140-141 | A failed parse reports the error of the first argument that is not a valid network. Every argument before it parsed. |
| `Utm5FreeIps.ParseFailurePersists` | src/utm5-free-ips.py:140-141 | Once a prefix of the arguments fails to parse, the whole list fails with the same error. Later arguments are never looked at. |
| `Utm5FreeIps.WalkNetwork` | src/utm5-free-ips.py:145-147 | The imperative host loop for one subnet prints exactly the all-mode free hosts of that subnet. |
| `Utm5FreeIps.WalkNetworks` | src/utm5-free-ips.py:144-147 | The imperative subnet loop prints exactly `FreeAll` of the parsed subnets. |
| `Utm5FreeIps.Report` | src/utm5-free-ips.py:139-143 | A run fails exactly when a subnet argument or a row of the query fails. The subnets are parsed before the query runs, so a bad subnet is reported even when a row is also bad. A bad row is reported only when every subnet parsed. |
| `Utm5FreeIps.Execute` | src/utm5-free-ips.py:137-148 | `main` produces exactly `Report`, which depends on neither the `-a` flag nor the `-m` mode. |
| `Utm5FreeIps.ReportPrintsExactlyFreeHosts` | src/utm5-free-ips.py:143-147 | An address is printed exactly when the query returned rows, no row holds it, and it is a host of one of the requested subnets. There is no early exit. |
| `Utm5FreeIps.ReportFollowsCommandLine` | src/utm5-free-ips.py:140-145 | The output for the argument list is the output for its first k arguments followed by the output for the rest, so subnets come out in command-line order. |
| `Utm5FreeIps.ReportWithinSubnet` | src/utm5-free-ips.py:145 | The addresses printed for one subnet are strictly ascending. For prefixes up to 30 they include neither the network address nor the broadcast address. |
| `Utm5FreeIps.EmptyTablePrintsNothing` | src/utm5-free-ips.py:143 | When the subnets parse and the query returns no rows, nothing is printed. |
| `BillingFreeIps.Upper` | src/billing-free-ips.py:85 | `str.upper` keeps the length, turns each lower-case letter into its capital and keeps every other character, so no lower-case letter is left. |
| `BillingFreeIps.UpperIsAll` | src/billing-free-ips.py:85 | A word reads `ALL` in upper case exactly when it spells `all` with each letter in either case. |
| `BillingFreeIps.ListAll` | src/billing-free-ips.py:85 | Printing continues past the first free host exactly when there is a third argument spelled `all` with each letter in either case. |
| `BillingFreeIps.Output` | src/billing-free-ips.py:78-89 | Without a subnet argument the result is the usage text. With one, the run fails exactly when the subnet or a row of the query fails, a bad subnet is reported first, and only address lines are printed. |
| `BillingFreeIps.WalkSubnet` | src/billing-free-ips.py:82-86 | The imperative host loop, with its exit after the first free host, prints exactly `Free(net, inUse, all)`. |
| `BillingFreeIps.FirstFoundIsFirstFree` | src/billing-free-ips.py:82-86 | When the walk has found exactly one free host before it stops, that host is the whole first-only output. |
| `BillingFreeIps.Execute` | src/billing-free-ips.py:78-89 | `main` produces exactly `Output`. |
| `BillingFreeIps.PrintedAreFreeHosts` | src/billing-free-ips.py:79-84 | Every printed address is a host of the subnet in `argv[1]`, and no row of the query holds it. |
| `BillingFreeIps.FirstOnlyPrintsLowestFree` | src/billing-free-ips.py:81-86 | Without `all`, at most one address is printed. Nothing is printed exactly when the query returned no rows or every host is taken. Otherwise the printed address is the lowest free host. |
| `BillingFreeIps.AllPrintsEveryFreeHost` | src/billing-free-ips.py:82-85 | With `all`, the output is an ascending list whose addresses are exactly the free hosts of the subnet. |
| `BillingFreeIps.EmptyTablePrintsNothing` | src/billing-free-ips.py:81 | When the subnet parses and the query returns no rows, nothing is printed. |
| `BillingFreeIps.NoSubnetPrintsUsage` | src/billing-free-ips.py:87-89 | Without a subnet argument, only the two usage lines are printed and no address is computed. |
| `BillingFreeIps.OnlySecondArgumentIsSubnet` | src/billing-free-ips.py:79-85 | Two command lines with the same `argv[1]` and the same all/first-only decision print the same thing. |

## Left out

- Reading `"a.b.c.d/n"` text is done by the `ipaddress` library, which is not part of this model. It is the parameter `lex`, which returns the address/prefix pair or nothing. Only the strict network check after the reading is modelled.
- `Ipv4.IpNetwork`: IPv6 subnets are outside the model. `ip_network` accepts IPv6 text and the script would then walk its hosts. The model reads IPv4 text only, so `lex` gives nothing for IPv6 text, and the model reports the generic error where the script prints IPv6 hosts.
- Printing uses `str(IPv4Address)`, the dotted-quad formatting. The model's output holds the integer address instead.
- `read_db_config`, `connect_to_db` and the cursor code are ConfigParser file I/O and MySQL calls. The rows of the query are an input. The crash paths are not modelled: the `None` connection at src/utm5-free-ips.py:122, `None` from src/billing-free-ips.py:71 measured with `len` at line 81, and `items.items()` at src/utm5-free-ips.py:81. The first and last of these mean that `src/utm5-free-ips.py` as written never prints an address (see above).
- Descriptions of this tool mention two things the code here does not do: a +2^32 correction for negative (signed) row values, and a list of exception addresses from the config file. The model follows the code. A negative row value makes `ip_address` raise (`NegativeAddress`), and there is no exception list.
- `get_args`, argparse errors and logging are not modelled. `-m` and `-a` are plain parameters of `Utm5FreeIps.Execute`. Argparse's demand for at least one subnet is that method's precondition.
- `QApplication`, `sys.exit(app.exec_())` and the Qt windows in `src/Gui.py` and `utm5ips/old/Gui.py` are user interface and process control. The billing script's `sys.exit(0)` is modelled as a return with the lines printed so far.
- `BillingFreeIps.Upper`: `str.upper` is modelled for the ASCII letters only. Other characters are left unchanged.
- `Ipv4.HostsOfTinyNetworks`: states what current CPython's `hosts()` yields for /31 and /32. Versions from before the RFC 3021 change yield no hosts for these two prefixes.
