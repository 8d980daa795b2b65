# geo-lookup in Dafny

This project models the core of geo-lookup, a small Node.js library that maps an IPv4 address to the country that owns it. It has two parts.

- **AddressCodec** (`address_codec.dfy`) converts between the three forms of an address:
  - the dotted-quad text `a.b.c.d`;
  - its four octets;
  - its 32-bit integer form `a*2^24 + b*2^16 + c*2^8 + d`.

  These are `ip2long`, `long2iparray` and `long2ip`. Addresses are naturals below 2^32 and octets are naturals below 256. The text side is modelled as well:
  - `String.prototype.split` with a one-character separator;
  - decimal reading and writing of an octet;
  - well-formed text, meaning four canonical decimal octets separated by dots.

  Both round trips are proved, along with the values the repository's tests check.
- **PrefixTree** (`prefix_tree.dfy`) models the module-level `ipPrefixTree` as the class `GeoTable`. Its field `tree` maps the first two octets `(a, b)` to a bucket of leaves. A bucket is keyed by the sub-index `c*256 + d`, and a leaf `{begin, end, country}` covers every sub-index in `[begin, end]`. The class has three operations:
  - `InsertRange` is the range loop of `loadData`, including its jump step: `j` moves either to the first address of the next /16 block or past the end of the range.
  - `Build` is the loop over input lines.
  - `Lookup` is `lookup`.

  Each method is proved against a specification function:
  - `Inserted` is a closed-form description of the leaves one range writes: one leaf per /16 block the range meets.
  - `InsertAll` applies `Inserted` once per range, in input order.
  - `Find` and `ScanFrom` describe what lookup answers: the country of the containing leaf with the smallest key, or null.

  The main theorem is `FindAfterBuild`. When the input ranges are pairwise disjoint, lookup after build returns the country of the range that holds the address, with both endpoints included. It returns null for every address that no range holds.

  `LookupScenario` is a client of the class. It loads a single stand-in range, 87.229.128.0 to 87.229.191.255 owned by RU, and shows through the method contracts alone that lookup answers RU for 87.229.134.24 and null for 1.1.1.1. The range is invented here: the data file the repository's tests load is not part of this model.

How overlapping input ranges behave follows from two facts about the code:
- **Scan order.** A bucket is a JavaScript object with integer keys, and `for..in` visits integer keys in ascending numeric order, whatever order they were written in. So lookup answers the country of the containing leaf with the smallest key (`ScanFromFirst`).
- **Overwriting.** Each range writes one leaf per block it meets. The leaf goes at the range's start sub-index in its first block, and at key 0 in every later block. A write to a key that already holds a leaf replaces that leaf (`InsertedFrame`).

So load order decides only between two pieces written at the same key in a block, that is, two ranges with the same `KeyIn` there (`SameKeyLaterWins`). A range's key in a block is its start sub-index in its first block and 0 in every later one. So the keys coincide in three ways:
- two ranges start at the same sub-index of the block (`SameStartOverwrites`);
- both continue into the block from earlier ones (`ContinuingRangesShareKeyZero`);
- one starts at the block's first address and the other continues into it.

In each case the later piece replaces the earlier one, and an address of the earlier range that the later piece does not cover answers null unless some other leaf holds it. Everywhere else the smaller key wins, whichever range was loaded last. Within one block, a later range that starts inside an earlier one loses (`NestedLaterRangeLoses`), and a later range that starts before an earlier one wins wherever it holds the address (`LaterRangeStartingFirstWins`).

## Model

| member | source | states |
|---|---|---|
| `AddressCodec.Long2IpArray` | lib/geo/index.js:42-52 | long2iparray(n) yields four octets, each in [0, 255], with arr[0]*2^24 + arr[1]*2^16 + arr[2]*2^8 + arr[3] == n |
| `AddressCodec.Long2IpArrayOfToLong` | lib/geo/index.js:42-52 | the octets are determined by the address: long2iparray of a*2^24 + b*2^16 + c*2^8 + d gives back exactly a, b, c, d |
| `AddressCodec.Long2Ip` | lib/geo/index.js:62-66 | long2ip(n) is well-formed dotted-quad text whose four octets are those of long2iparray(n) |
| `AddressCodec.Ip2LongIsToLong` | lib/geo/index.js:30-34 | ip2long of well-formed text is a*16777216 + b*65536 + c*256 + d for the text's octets, and long2iparray of the result recovers those octets |
| `AddressCodec.Ip2LongOfLong2Ip` | lib/geo/index.js:30-66 | round trip from the integer side: ip2long(long2ip(n)) == n for every n in [0, 2^32) |
| `AddressCodec.Ip2Long` | lib/geo/index.js:30-34 | ip2long of well-formed text is the address whose long2iparray octets are exactly the octets the text spells out |
| `AddressCodec.DecimalValue` | lib/geo/index.js:32 | parseInt, and the numeric coercion of `*`, on a digit string. Its own contract only bounds the value below 10^length. Its meaning is carried by DecimalOfDecimalValue and DecimalValueOfDecimal, which make it the inverse of the decimal rendering |
| `AddressCodec.Long2IpOfIp2Long` | lib/geo/index.js:30-66 | round trip from the text side: long2ip(ip2long(ip)) == ip for every well-formed ip text |
| `AddressCodec.KnownValues` | test/index.js:22-42 | the test conversions hold in both directions: 87.229.134.24 <-> 1474659864, 217.212.248.160 <-> 3654613152, 188.65.186.96 <-> 3158424160, and also 1.1.1.1 <-> 16843009 |
| `PrefixTree.LookupScenario` | test/index.js:37-42 | with one stand-in RU range 87.229.128.0 - 87.229.191.255 loaded through Build, Lookup answers RU for 87.229.134.24 and null for 1.1.1.1 |
| `AddressCodec.Split` | lib/geo/index.js:31 | ip.split(".") has at least one piece, and no piece contains the separator |
| `AddressCodec.SplitJoin` | lib/geo/index.js:31 | splitting pieces joined by the separator gives back the pieces |
| `AddressCodec.JoinSplit` | lib/geo/index.js:31 | joining the pieces of a split with the separator gives back the text |
| `AddressCodec.Decimal` | lib/geo/index.js:64 | the rendering of an octet in long2ip is canonical decimal: non-empty digits with no leading zero |
| `AddressCodec.DecimalValueOfDecimal` | lib/geo/index.js:64 | reading back the decimal rendering of a number gives the number |
| `AddressCodec.DecimalOfDecimalValue` | lib/geo/index.js:32 | rendering the value of canonical decimal text gives back the text |
| `PrefixTree.BlockAndSub` | lib/geo/index.js:90-101 | the bucket path (a, b) of an address is its /16 block number x div 65536, and its startArrayIndex c*256 + d is x mod 65536 |
| `PrefixTree.GeoTable.constructor` | lib/geo/index.js:9 | the tree starts empty, and lookup on it answers null for every address |
| `PrefixTree.GeoTable.InsertRange` | lib/geo/index.js:89-119 | the jump loop keeps the tree well-formed and leaves it equal to Inserted(old tree, [start, end] -> country): one leaf per /16 block the range meets |
| `PrefixTree.InsertedEmpty` | lib/geo/index.js:89 | when start > end the loop body never runs, and inserting leaves the tree unchanged |
| `PrefixTree.GeoTable.Build` | lib/geo/index.js:83-120 | loading the ranges in order leaves the tree equal to InsertAll(old tree, ranges) and keeps it well-formed |
| `PrefixTree.GeoTable.Lookup` | lib/geo/index.js:145-159 | lookup(ip) answers Find(tree, ip2long(ip)): null when bucket [a][b] is missing or no leaf contains c*256+d, else the country of the containing leaf with the smallest key |
| `PrefixTree.InsertStep` | lib/geo/index.js:89-118 | one iteration moves j strictly forward, either to the first address of the next /16 block or to end + 1, and moves the tree from Inserted(.., j - 1) to Inserted(.., next - 1) while keeping it well-formed |
| `PrefixTree.StepArithmetic` | lib/geo/index.js:109-118 | the jump j + maxPossibleRange + 1 or j + range + 1 lands on a block boundary not past end, or on end + 1, and the leaf written ends at the sub-index of the last address covered |
| `PrefixTree.InsertedWellFormed` | lib/geo/index.js:101-117 | every leaf after an insertion sits at the key equal to its begin and satisfies begin <= end <= 65535 |
| `PrefixTree.InsertedCovers` | lib/geo/index.js:89-118 | after inserting [start, end] -> country, every address x in the range, endpoints included, has a leaf of that country in bucket [a(x)][b(x)] containing c(x)*256 + d(x) |
| `PrefixTree.InsertedFrame` | lib/geo/index.js:93-104 | inserting writes the range's piece at its key in each block it meets, replacing any earlier leaf there (last write wins); every other key and every other bucket keeps what it had |
| `PrefixTree.InsertedAt` | lib/geo/index.js:93-117 | after an insertion, a bucket exists exactly when it existed before or the range meets its block, and it holds the old bucket, or an empty one, updated with the range's piece |
| `PrefixTree.PieceContains` | lib/geo/index.js:101-117 | the leaf a range leaves in a block contains exactly the range's addresses in that block |
| `PrefixTree.ScanFromFirst` | lib/geo/index.js:150-158 | the bucket scan answers null exactly when no leaf contains the index, and otherwise the country of the containing leaf with the smallest key |
| `PrefixTree.ScanSkipsAbsent` | lib/geo/index.js:152 | keys that are absent from a bucket contribute nothing to the scan, which is why visiting every candidate key in ascending order answers like for..in over the present keys |
| `PrefixTree.FindAfterSingleInsert` | lib/geo/index.js:89-158 | after one range is loaded into the empty tree, lookup answers its country exactly for the addresses in [start, end] and null elsewhere |
| `PrefixTree.InsertKeepsPieces` | lib/geo/index.js:89-118 | inserting a range disjoint from the earlier ones overwrites none of their leaves, and every leaf remains a piece of some loaded range |
| `PrefixTree.BuildKeepsPieces` | lib/geo/index.js:83-120 | the tree built from disjoint ranges holds every range's piece in every block the range meets, and nothing else |
| `PrefixTree.FindAfterBuild` | lib/geo/index.js:83-158 | for disjoint input ranges, lookup after build answers the country of the range holding the address (endpoints included) and null when no range holds it |
| `PrefixTree.SameStartOverwrites` | lib/geo/index.js:101-117 | two ranges in one /16 block that start at the same sub-index, loaded into a table without that block's bucket: the later leaf replaces the earlier, its addresses answer the later country, and the rest of the earlier range answers null |
| `PrefixTree.NestedLaterRangeLoses` | lib/geo/index.js:152-155 | two ranges in one /16 block, loaded into a table without that block's bucket, the later starting inside the earlier: every address of the earlier range still answers the earlier country, because its leaf has the smaller key |
| `PrefixTree.LaterRangeStartingFirstWins` | lib/geo/index.js:152-155 | two ranges in one /16 block, loaded into a table without that block's bucket, the later starting before the earlier: every address of the later range answers the later country, including addresses the earlier range also holds |
| `PrefixTree.SameKeyLaterWins` | lib/geo/index.js:101-104 | two ranges whose pieces in block n have the same key, loaded one after the other into any table: the later range's piece is what that key holds afterwards |
| `PrefixTree.ContinuingRangesShareKeyZero` | lib/geo/index.js:101-117 | two ranges that both continue into block n from earlier blocks both write key 0 there, and the later range's piece is what remains, whatever the starts |
| `PrefixTree.ScanFromSmallestKey` | lib/geo/index.js:152-154 | a containing leaf with no key below it is the one lookup's scan answers |

## Left out

- File reading and line parsing in `loadData`: `fs.readFileSync`, splitting on newlines and tabs, `parseInt` of the fields, and the `while (line = data[i++])` loop that stops at the first empty line. `Build` takes the already parsed `(start, end, country)` triples in file order.
- Logging and printing: `console.log`, `Object.size` and `printLookupTable`. They only report on the tree.
- Floating point in `long2iparray`. For an integer below 2^32, the floating quotients by 256 are exact, so the model uses integer `/` and `%` by 256 and keeps only the integer meaning.
- Malformed ip text. `ip2long` and `lookup` do no validation and rely on JavaScript's string-to-number coercion. The model requires four canonical decimal octets (`WellFormedIp`). Text with leading zeros such as `087` is outside the model: the source looks up the bucket under the string key `"087"`, which is never created.
- The unused `longValue` computation in `lookup` and the implicit globals `arr`, `ip` and `lookupArray`. They have no effect on results.
- The repository's test lookups `87.229.134.24 -> RU` and `2.20.4.0 -> IT` run against the data file `data/geo.txt`, which is not part of this model. `LookupScenario` shows the RU lookup against one stand-in range, and does not model the IT lookup.
- The timing tests and their random octet generator. They measure speed and produce non-integer octets.
- PrefixTree.GeoTable.InsertRange: the two nested objects `ipPrefixTree[a]` and `ipPrefixTree[a][b]` become one map keyed by the pair `(a, b)`. The source always creates both levels together before writing a leaf, so a missing `[a]` is the same as no `(a, b)` key for that `a`.
- PrefixTree.GeoTable.InsertRange: the source creates the leaf object and then fills in `country`, `begin` and `end` one field at a time. The model writes the finished leaf once per iteration. The intermediate states cannot be observed.
- PrefixTree.GeoTable.Lookup: the loop visits every candidate key from 0 to 65535 in ascending order and skips absent keys. `for..in` visits only the present keys, in the same order, so both give the same answer.
- SameStartOverwrites, NestedLaterRangeLoses and LaterRangeStartingFirstWins are stated for two ranges inside one /16 block, loaded when that block has no bucket yet. When other leaves already sit in the bucket, the smallest-key rule of `ScanFromFirst` decides, and these three lemmas do not spell that out.
- Concurrency: the source is single-threaded, and there is none to model.
