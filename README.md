# IP_Aggregator in Dafny

IP_Aggregator downloads the delegation statistics of the five Regional Internet
Registries (RIPE NCC, ARIN, APNIC, LACNIC, AFRINIC). It keeps the IPv4 and IPv6
records of the requested countries, collapses each family's networks into the
smallest equivalent list of CIDR blocks, and writes them one per line.

This project models that pipeline on values and proves what each step promises.

- `wrappers.dfy`: `Option`.
- `arith.dfy` (module `Arith`): powers of two and an exact floor logarithm. The source computes the IPv4 prefix as `32 - int(math.log(n, 2))` (main.py:81); the model uses the integer floor log2 in its place.
- `text.dfy` (module `Text`):
  - Python's `str.strip()` (Unicode whitespace), ASCII `upper` and `isalpha`.
  - `str.split('|')`.
  - `int()` on text: surrounding whitespace, a sign, and underscores between digits.
  - `str()` of an integer.
- `cidr.dfy` (module `Cidr`): a network of width `w` is a pair (base, prefix length).
  - Validity (aligned, inside the address space), containment, supernets and halves.
  - The notion of a *collapsed* list: valid, ascending, pairwise disjoint, no sibling pair.
  - The proof that a collapsed list covering a given set of addresses is unique.
- `collapse.dfy` (module `Collapse`): `ipaddress.collapse_addresses` (main.py:106-107) as CPython runs it, in three steps:
  - A worklist merges any network with a stored sibling into their supernet. Stored networks are kept in a map keyed by supernet.
  - The stored networks are sorted.
  - Any network that ends inside the last network kept is dropped.

  The result is proved to be the collapsed form of the input. Alongside are concrete merge examples and the idempotence of collapsing.
- `address.dfy` (module `Address`): `ipaddress.ip_network(text, strict=False)` (main.py:87).
  - IPv4 is tried first, then IPv6.
  - IPv4 dotted quads follow the strict octet rules of Python 3.9.5 and later: at most three digits, no leading zero, at most 255. Earlier versions accepted some leading zeros.
  - An IPv4 mask is a prefix length, or a netmask or hostmask in dotted form.
  - An IPv6 mask is a prefix length up to 128.
  - Host bits are masked off (non-strict).
  - The network's version decides its family.
  - IPv6 address text is read by a parameter `parse6`.
- `countries.dfy` (module `Countries`): `get_target_countries` (main.py:29-48).
- `records.dfy` (module `Records`): the interpretation of one statistics line (main.py:62-94) and the read loop over the five registries (main.py:51-100). A line's outcome is an accepted network or one of seven skip reasons. A failure while reading a response (a network error, a UTF-8 decoding error) ends that response and processing goes on with the next registry.
- `output.dfy` (module `Output`): `save_aggregated` (main.py:103-118). The written file is modelled as the sequence of networks written, each with its version. The line count is the length of that sequence.

Behaviours of the code that the model keeps, which a reader might not expect:

- **IPv4 host counts.** A host count that is not a power of two is not rejected. The code takes the floor of the logarithm, so 768 hosts at 10.0.0.0 give 10.0.0.0/23 (`Records.CountRoundsDown`). A count of 2^33 or more gives a negative prefix, which `ip_network` refuses (`Records.HugeCountDropped`).
- **Family mismatch.** A record whose type field disagrees with the family of its address text is not an error. The network goes to the list of the version that parsed (main.py:88-91).
- **Empty country.** A `-c` argument that is empty selects nothing (main.py:32). A non-empty one is used after `strip().upper()` without the two-letter check that list files get (main.py:33, main.py:44).

## Model

| member | source | states |
|---|---|---|
| Arith.Log2Floor | main.py:81 | the prefix exponent k of a count n is the one with 2^k <= n < 2^(k+1) |
| Arith.Log2FloorOfPow2 | main.py:81 | the exponent of a count of exactly 2^k hosts is k |
| Arith.Log2Between | main.py:81 | every n in [2^k, 2^(k+1)) has exponent k, so the floor logarithm is determined by that range |
| Text.Strip | main.py:62 | the stripped line is empty or starts and ends with a non-whitespace character |
| Text.StripShape | main.py:62 | what strip removes is whitespace at the two ends, and the result is the remaining middle of the line |
| Text.StripUnchanged | main.py:62 | a line without whitespace at either end is left as it is |
| Text.Split | main.py:66 | splitting at the field separator gives at least one field, no field holds the separator, and re-joining the fields gives back the line |
| Text.SplitJoin | main.py:66 | splitting the join of separator-free fields gives back exactly those fields |
| Text.ShowNat | main.py:82 | the decimal text of a prefix length is digits with no leading zero whose value is that number |
| Text.ShowIntDigits | main.py:82 | the rendered prefix is all digits exactly when it is not negative |
| Text.ParseInt | main.py:80 | `int()` reads plain decimal digits (after strip) as their value, refuses an empty field, and gives a negative value only after a minus sign |
| Text.ParseShowInt | main.py:80 | `int()` reads back the text of every integer |
| Text.ParsePadded | main.py:80 | `int()` ignores whitespace around the digits (a count field such as " 256 ") |
| Countries.NormalizedCodeUpper | main.py:42-45 | a line that normalizes to two letters gives two upper-case letters |
| Countries.TargetCountries | main.py:29-48 | a single code gives exactly its normalized form, or nothing when empty; a list gives exactly its lines that normalize to two letters, all upper case |
| Cidr.NetworkOf | main.py:87 | the non-strict network of prefix p around an address is valid, has length p and contains the address |
| Cidr.NetworkOfBase | main.py:87 | masking a network's own base gives the network back |
| Cidr.Laminar | main.py:106-107 | two valid blocks that share an address are nested |
| Cidr.Halves | main.py:106-107 | the two halves of a block are valid siblings that together cover exactly the block |
| Cidr.MergeCover | main.py:106-107 | two distinct blocks with the same supernet cover exactly that supernet |
| Cidr.CollapsedUnique | main.py:106-107 | two collapsed lists covering the same addresses are equal: the collapsed form is unique |
| Collapse.Insert | main.py:106-107 | inserting into a sorted list keeps it sorted and adds exactly the new element |
| Collapse.MergeBySupernet | main.py:106-107 | the worklist phase ends with every network filed under its own supernet, covering exactly the input's addresses |
| Collapse.ValuesNotMergeable | main.py:106-107 | no two networks stored under distinct supernets are siblings |
| Collapse.SortedValues | main.py:106-107 | the stored networks, sorted by base then prefix length, with nothing lost or added |
| Collapse.DropSubsumed | main.py:106-107 | dropping every network that ends inside the last one kept leaves an ascending, disjoint list of input networks covering the same addresses |
| Collapse.CollapseAddresses | main.py:106-107 | the result is collapsed and covers exactly the addresses of the input |
| Collapse.CollapseOfEmpty | main.py:106-107 | collapsing nothing gives nothing |
| Collapse.CollapseIdempotent | main.py:106-107 | collapsing a collapsed list changes nothing |
| Collapse.CollapseDependsOnCoverOnly | main.py:106-107 | inputs covering the same addresses collapse to the same output |
| Collapse.SiblingsMerge | main.py:106-107 | 10.0.0.0/25 and 10.0.0.128/25 collapse to 10.0.0.0/24 |
| Collapse.ContainedDropped | main.py:106-107 | 10.0.0.0/24 with 10.0.0.0/25 inside it collapses to 10.0.0.0/24 |
| Collapse.NonSiblingsKept | main.py:106-107 | 10.0.0.0/25 and 10.0.1.128/25 are not siblings and both stay |
| Collapse.CascadingMerge | main.py:106-107 | four consecutive /26s collapse to one /24, a merge two levels deep |
| Address.OctetRoundTrip | main.py:87 | the decimal text of a byte is accepted as an octet of that value |
| Address.OctetCanonical | main.py:87 | an accepted octet is the decimal text of its value, so leading zeros are refused |
| Address.ParseFormatV4 | main.py:87 | reading the dotted text of an address gives the address back |
| Address.FormatParseV4 | main.py:87 | any accepted dotted quad is the dotted text of its value |
| Address.ParseV4 | main.py:87 | an accepted IPv4 address is a 32-bit value whose text holds a dot and neither ':' nor '/' |
| Address.ColonNotV4 | main.py:87 | text containing ':' is never an IPv4 address, so IPv6 text falls through to the IPv6 parser |
| Address.NetmaskInjective | main.py:87 | distinct prefix lengths have distinct netmasks |
| Address.MaskPrefix | main.py:87 | a value is read as the prefix length whose netmask it is, or as none when it is no netmask |
| Address.PrefixText4 | main.py:87 | an IPv4 mask is at most 32; a mask of digits is a prefix length exactly when its value is at most 32, and any other accepted mask is a dotted quad |
| Address.NetmaskText | main.py:87 | a dotted netmask as mask gives its prefix length |
| Address.HostmaskText | main.py:87 | a dotted hostmask as mask gives the prefix length it complements |
| Address.HostmaskNotNetmask | main.py:87 | a hostmask of prefix 1 to 31 is no netmask, so the two readings of a dotted mask never clash |
| Address.Versions | main.py:87-91 | IPv4 is tried first and wins whenever it parses; an IPv6 result means the IPv4 reading failed and is the IPv6 reading; address text with ':' only ever gives an IPv6 network |
| Address.IpNetwork | main.py:87 | any accepted network text gives a valid network of its version's width |
| Address.OneSlash | main.py:87 | text with one '/' is read as an address and a mask |
| Address.AddressWithPrefix | main.py:82-89 | a dotted IPv4 address with "/" and a prefix length up to 32 gives the IPv4 network around it |
| Address.Text4RoundTrip | main.py:112 | the printed text of an IPv4 network reads back as that network |
| Address.NegativePrefixRefused | main.py:81-87 | a negative prefix length is refused, whatever the address text |
| Address.SlashInAddress | main.py:82-87 | a start address that itself holds a '/' makes the network text refused |
| Address.V6WithPrefix | main.py:84-91 | an IPv6 address with a prefix length up to 128 gives the IPv6 network around it |
| Address.V6PrefixTooLong | main.py:84-87 | an IPv6 address with a prefix length beyond 128 is refused |
| Address.HostBitsMasked | main.py:87 | masking 10.0.0.5 to prefix 24 gives 10.0.0.0 |
| Records.PlanFor | main.py:79-84 | an ipv4 count is an error exactly when it is no positive integer, and otherwise gives the start, '/' and 32 - floor(log2 n); an ipv6 value is taken as the prefix text; other types give no network text |
| Records.PlanBetween | main.py:79-82 | a count n with 2^k <= n < 2^(k+1), k <= 32, gives the start, '/' and the digits of 32 - k |
| Records.HugeText | main.py:79-82 | a count of 2^33 or more gives the start, '/' and a negative prefix |
| Records.InterpretFields | main.py:66-94 | a record with fewer than seven fields, or not selected, is skipped for that reason; an ipv4 record whose count is not a positive integer is skipped; anything accepted is a valid, selected ipv4 or ipv6 record |
| Records.Interpret | main.py:62-94 | a blank line and a comment line are skipped; an accepted line is a selected record and a valid network |
| Records.InterpretJoined | main.py:62-66 | a record line built from its fields is interpreted as those fields |
| Records.V4Record | main.py:79-89 | an ipv4 count n in [1, 2^33) gives the network of prefix 32 - floor(log2 n) around the start address |
| Records.PowerOfTwoCount | main.py:79-89 | a count of 2^k hosts, k <= 32, gives exactly the /(32-k) network |
| Records.CountRoundsDown | main.py:79-89 | a count in [2^k, 2^(k+1)) that is no power of two is rounded down to the /(32-k) network, not rejected |
| Records.HugeCountDropped | main.py:79-94 | a count of 2^33 or more gives a negative prefix and the record is dropped, whatever its start address |
| Records.MaskedStart | main.py:79-89 | a record starting at 10.0.0.5 with 256 hosts gives 10.0.0.0/24: the host bits are masked off |
| Records.V6Record | main.py:83-91 | an ipv6 record whose value is a prefix length up to 128 gives that IPv6 network |
| Records.V6PrefixOutOfRange | main.py:83-94 | an ipv6 record whose prefix length is over 128 is dropped |
| Records.OtherTypeIgnored | main.py:77-86 | a record of any other type (asn, ...) contributes nothing |
| Records.CollectedConcat | main.py:57-91 | the networks of two runs of lines are the networks of each, in order |
| Records.CollectedMembers | main.py:88-91 | a network is in a family's list exactly when some line was accepted as that network of that family |
| Records.SkippedLineIrrelevant | main.py:63-94 | removing a line that is skipped (blank, comment, short, unselected, bad count, bad network) changes neither list |
| Records.LinesValid | main.py:88-91 | every network in the IPv4 list is a valid 32-bit network and every one in the IPv6 list a valid 128-bit one |
| Records.ErrorTruncates | main.py:58-97 | a read error ends the response: the lines processed are exactly those before it |
| Records.ReadResponse | main.py:60-94 | reading one response appends, to each list, the networks of that family from its readable lines, in order |
| Records.FetchAndAggregate | main.py:51-100 | the two lists are the IPv4 and the IPv6 networks of all readable lines of the five registries, in order |
| Output.TagInjective | main.py:111-116 | the written lines determine the networks they came from |
| Output.SaveAggregated | main.py:103-118 | the output is a collapse of the IPv4 list followed by a collapse of the IPv6 list, and the count is the number of lines written |
| Output.WrittenUnique | main.py:103-118 | what is written is determined by the two input lists |
| Output.WrittenOrder | main.py:111-116 | every IPv4 line comes before every IPv6 line, and each line is a valid network of its version |
| Output.NothingWritten | main.py:103-118 | with nothing collected, nothing is written and the count is zero |
| Output.Aggregate | main.py:129-130 | the program's output is the collapsed IPv4 networks of the selected records, then the collapsed IPv6 ones, with the count of lines written |

## Left out

- Downloading: `urllib.request.urlopen` and its 30-second timeout (main.py:60) are modelled by the parameter `fetch`. It maps a URL to the lines of its response, where a `ReadError` entry stands for any exception raised while reading. The message printed for such an error is not modelled.
- UTF-8 decoding (main.py:62): a line that fails to decode is a `ReadError` in `fetch`'s result. Every other line is given as already-decoded text.
- Command line: `parse_arguments`, `main`'s exit when no country is selected (main.py:125-127), and the exit on a missing list file (main.py:36-38) are I/O and process control. `Countries.TargetCountries` takes the `-c` value or the list file's lines as data.
- Printing: every progress and error message is left out.
- Output file: `open(output_file, 'w')` and `f.write` are modelled as the returned sequence of networks. `str(net)` is the `Address.Text4` rendering for IPv4. IPv6 networks are written as values, with no text rendering of IPv6 addresses.
- IPv6 address text: its grammar (groups, `::` compression, embedded IPv4, scope ids) is the parameter `parse6`, whose results lie below 2^128 by their type. The model relies only on IPv6 text containing ':' (`Address.ColonNotV4`).
- Arith.Log2Floor: `int(math.log(n, 2))` is floating point. Where the quotient of the two logarithms rounds below an exact integer, it may come out one lower. The model uses the exact floor log2 instead and does not capture that rounding.
- Text.Upper: Python's `upper()` maps all of Unicode. The model maps ASCII letters only, and does not capture case mappings that change length, such as 'ß' to "SS".
- Countries.IsCode: `isalpha()` accepts any Unicode letter. The model accepts ASCII letters only.
- Text.ParseInt: `int()` also accepts non-ASCII decimal digits. The model accepts ASCII digits only.
- Laziness: `collapse_addresses` returns an iterator and the response is read lazily. Both are modelled as complete sequences, which gives the same lines in the same order.
- Collapse.CollapseAddresses: CPython first turns /32 and /128 networks into address ranges and summarizes them. The model runs them through the same worklist as the other networks. The result has the same value, since `Cidr.CollapsedUnique` proves the collapsed form of a set of addresses unique.
- Records.ReadResponse: it takes the line interpretation as a function parameter. `Records.FetchAndAggregate` passes it the interpretation of main.py:62-94.
