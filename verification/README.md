# mButterTracert core, modelled in Dafny

This project models the two pure cores of the traceroute tool:

- `Program.TraceRoute` (module `Hops`). It covers:
  - probing each TTL in [1, maxTTL), with optional retries after a time-out;
  - the `switch` that decides which hop-table entry a TTL's final reply adds;
  - sorting the table by hop and moving the highest hop down to one past the
    second-highest.
- The per-hop output line `hop.PadRight(3) + " " + address.PadLeft(15) + " " + geo`
  (module `Report`).
- Carrier classification `GeoIP.GetCnISP` and geo-string assembly
  `GeoIP.GetGeoStr` (module `GeoIP`).

`Text` holds the .NET string operations these use:

- `PadRight` and `PadLeft`;
- `ToLower` and `Contains`;
- `IsNullOrWhiteSpace`;
- `String.Join(" ", …)`;
- `Enumerable.Distinct`;
- integer `ToString`.

`Options` holds `Option` and `Result`.

How the outside world enters the model:

- **Network.** The network is an oracle `send: Probe -> Reply<A>`. A probe
  carries its TTL, its time-out and its attempt number.
- **Addresses.** Addresses are an abstract type `A`, with `IPAddress.Any`
  passed in as `any`. `IPAddress.IsLoopback` is passed in as a flag.
- **Parallel loop.** The `Parallel.For` over TTLs is the sequential fold
  `Fill` over ascending TTLs.
- **Dictionary.** The `Dictionary<int, IPAddress>` is a sequence of entries
  in enumeration order.
- **Lookups.** The MaxMind ASN and City lookups and the ipdb district lookup
  are optional input records. `None` stands for a lookup that threw.

Two behaviours of the code are modelled as written.

**A failed lookup empties the whole geo string.** The body of `GetGeoStr` is
one outer `try` (GeoIP.cs:69-114). Two calls run inside it.
`GetAsnCityValueTuple` makes the `Asn` lookup, and outside zh mode it runs
`Task.WaitAll` over the ASN and City lookups. The ipdb `find` is the other
call. An exception from any of them ends in the outer `catch`, which returns
the empty string, so no part of the geo string survives a failed lookup. `GeoStr` models this.

**No carrier label in Chinese-culture mode.** There, `GetAsnCityValueTuple`
returns a fresh `CityResponse` whose country ISO code is null. `GetCnISP` therefore
always answers with the empty label, and the carrier segment is five blanks
(`GeoIP.ZhShowsNoCarrier`).

## Model

| member | source | states |
|---|---|---|
| Hops.Retries | Program.cs:135-140 | The retries sent after a reply: none unless it timed out and retries remain. At most the remaining count. Each carries the same TTL, `timeout / 2` and the next attempt number. Every retry but the last timed out, and a last retry that timed out means the whole budget was spent. |
| Hops.Attempts | Program.cs:134-140 | All probes for one TTL: the first with the full time-out; exactly one without `retry`; at most `1 + retryCount` in all. The TTL never changes; every retry uses `timeout / 2`; every probe but the last timed out; a final time-out with `retry` means every retry was spent. |
| Hops.ProbeTtl | Program.cs:134-140 | The counted loop with its `break` sends exactly the probe sequence `Attempts` describes, and its reply is the reply to the last of them. |
| Hops.Record | Program.cs:142-153 | One TTL's switch either leaves the table alone or appends exactly that TTL's entry. |
| Hops.RecordSpec | Program.cs:142-153 | Per status: `TtlExpired` always records the router, even if the address is already present. `TimedOut` always records `Any`. `Success` records the address only when it is not yet a value of the table. Any other status records nothing. No other key changes. |
| Hops.RecordAppends | Program.cs:144-152 | An entry that the switch adds is the TTL's own entry. A `Success` reply adds one only for an address not already held. |
| Hops.Fill | Program.cs:132 | Every hop number in the table lies in [1, maxTTL). |
| Hops.FillAscending | Program.cs:132 | The fold over ascending TTLs builds a table already sorted by hop. |
| Hops.FillPrefix | Program.cs:132-154 | Later TTLs never disturb earlier entries: the table for a lower bound is a prefix of the table for a higher one, and the extra entries all have hops at or above the lower bound. |
| Hops.FindSettled | Program.cs:132-154 | The finished table's entry for a TTL is the one present right after that TTL was processed. |
| Hops.FillEntry | Program.cs:142-153 | In the finished table, each TTL's entry follows from its own final reply and from the entries of lower TTLs, exactly as the switch prescribes for each status. |
| Hops.EntryPosition | Program.cs:132-154 | The entry at position j has a hop in [1, maxTTL). The table before its TTL is exactly the entries before j, and the table after its TTL ends with that entry. |
| Hops.SuccessFirstWins | Program.cs:145-146 | An entry added by a `Success` reply has an address that no earlier entry holds. |
| Hops.AllTimedOut | Program.cs:148-149 | When every TTL times out, the table is 1 → Any, …, maxTTL-1 → Any: time-outs are never suppressed. |
| Hops.Insert | Program.cs:156 | Inserting an entry with a new hop into a sorted table gives a sorted table with the same entries plus the new one. |
| Hops.SortByHop | Program.cs:156 | `OrderBy(o => o.Key)` on a dictionary gives a permutation of its entries in ascending hop order. |
| Hops.SortAscending | Program.cs:156 | Sorting a table already in ascending order leaves it unchanged. |
| Hops.Compact | Program.cs:157-159 | Fails exactly when the table has fewer than two entries (`Last()` on an empty sequence). Otherwise the entry count is unchanged, every entry before the last is kept, and the last entry's address is kept. |
| Hops.CompactSorted | Program.cs:157-159 | On a sorted table: the result is sorted, and the highest hop's address sits at the second-highest hop + 1. That slot is at most the old highest hop and above every remaining hop, so no key collides. All other entries are unchanged. |
| Hops.CompactFind | Program.cs:157-159 | Seen as a dictionary, compaction changes no key other than the removed highest hop and the slot its address moves to. |
| Hops.CompactContiguous | Program.cs:157-159 | A table whose hops are exactly 1..k, k ≥ 2, is returned unchanged. |
| Hops.CompactInRange | Program.cs:157-159 | Compacting a sorted table whose hops lie in [1, maxTTL) keeps them sorted and in that range. It keeps the lower entries and moves the last address to the second-highest hop + 1. |
| Hops.SortAndCompact | Program.cs:156-159 | The trace fails exactly when fewer than two TTLs were recorded. Otherwise it has as many entries as were recorded. |
| Hops.SortIsIdentity | Program.cs:156 | The sort step is the identity on the table the fold builds, so the trace is the compaction of that table. |
| Hops.TraceRouteHops | Program.cs:125-161 | A successful trace is sorted by hop, and every hop number lies in [1, maxTTL). |
| Hops.TraceRouteEntries | Program.cs:156-159 | A successful trace keeps every recorded entry but the last. The last hop's address moves to the second-highest recorded hop + 1. |
| Hops.ShortTraceFails | Program.cs:157 | With maxTTL ≤ 2 at most one TTL is probed, so `Last()` throws and the trace fails. |
| Report.FormatLine | Program.cs:96-97 | Every column of the line. Let hw be max(3, digits of the hop) and aw be max(15, \|address\|). The line is exactly hw + 1 + aw + 1 + \|geo\| long. It holds the hop's decimal text, then blanks to column hw, then a blank. Next come blanks and then the address, ending at column hw + aw. Then one blank, then the geo string to the end. |
| Report.LineColumns | Program.cs:96-97 | For a hop below 1000 and an address of at most 15 characters, the line is exactly 20 + \|geo\| long. The hop's digits start at column 0 and are followed by blanks through column 3. Columns 4 up to the address are blank, and the address ends at column 18. Column 19 is a blank and the geo string fills the rest. |
| Report.HopReadsBack | Program.cs:96 | The hop number's digits at the start of a line read back as the hop number. |
| Report.Lines | Program.cs:95-97 | One line per table entry, in table order. Each line starts with its entry's hop text and ends with the geo string of its entry's address. |
| Report.AlignedLines | Program.cs:95-97 | For a table with hops in [1, 1000) and addresses of at most 15 characters, every line has exactly 20 + \|geo\| columns. Its hop's digits lead it, read back as the hop, and are followed by blanks through column 3. Blanks then the address fill columns 4-18, column 19 is a blank, and the geo string starts at column 20. |
| Report.TraceLines | Program.cs:94-97 | The printed lines of a successful trace with maxTTL ≤ 1000 have the same fixed columns, each led by its hop number, which reads back. |
| GeoIP.ContainsAny | GeoIP.cs:45-57 | True exactly when one of the keywords occurs in the text. |
| GeoIP.CnIsp | GeoIP.cs:36-65 | The label is one of "", CERNET, CM, CU, CT. It is empty unless the country is exactly "CN" and the organisation is non-null. Under CN, each label is returned exactly when its keyword group matches the lower-cased organisation and no earlier group (CERNET, CM, CU, CT, in that order) does. |
| GeoIP.CnIspIgnoresCase | GeoIP.cs:41 | The label does not depend on the organisation's letter case. |
| GeoIP.CtCatchesTheRest | GeoIP.cs:55-57 | Under CN, an organisation containing "ct" and no earlier keyword is classified CT. |
| GeoIP.UniversityBeforeMobile | GeoIP.cs:45-51 | "University Mobile" is CERNET: the first matching group wins. |
| GeoIP.AsSegment | GeoIP.cs:81-82 | The AS segment starts with `[organisation / ASnumber] ` (null parts print empty), is blank after it. Its width is exactly max(50, \|AS text\|): a longer text is kept whole. |
| GeoIP.CarrierSegment | GeoIP.cs:103-106 | Five blanks for an empty label. Otherwise `[label] ` right-aligned in max(5, \|label\| + 3) columns, with blanks before it: exactly `[CM] ` style for two-letter labels, 9 wide for CERNET. |
| GeoIP.NarrowCarrier | GeoIP.cs:103-104 | The carrier segment is 5 wide unless the carrier is CERNET. |
| GeoIP.BlankCity | GeoIP.cs:94-100 | A city record whose country ISO, subdivision ISO and city name are all null or white space prints as exactly twenty blanks. |
| GeoIP.CountryLeads | GeoIP.cs:94-95 | A country ISO code that is not blank starts the city segment, followed by one space. |
| GeoIP.CitySegment | GeoIP.cs:90-101 | In zh mode: the distinct districts joined by spaces, then blanks, exactly max(8, \|text\|) wide. Otherwise: the non-blank country ISO, subdivision ISO and city name, each followed by a space, then blanks, exactly max(20, \|text\|) wide. Padding never truncates. |
| GeoIP.DistrictsRecoverable | GeoIP.cs:91 | Splitting the zh city text at spaces gives back the distinct districts in first-seen order, when district names contain no spaces. |
| GeoIP.GeoStr | GeoIP.cs:67-115 | Empty for loopback or `Any`, and empty exactly when that holds or a needed lookup failed. Otherwise it is the AS, carrier and city segments in that order, at least 63 (zh) or 75 wide. |
| GeoIP.ZhShowsNoCarrier | GeoIP.cs:74-75 | In zh mode the carrier segment of a non-empty geo string is always five blanks. |
| GeoIP.GeoStrColumns | GeoIP.cs:81-108 | When every needed lookup succeeds, the geo string is its three segments. It starts with the AS text. The carrier segment starts at column max(50, \|AS text\|), and the city segment follows right after the carrier segment. |
| Text.PadRight | GeoIP.cs:81-82 | The result has width max(width, \|s\|), starts with `s` and is blank after it. |
| Text.PadLeft | Program.cs:97 | The result has width max(width, \|s\|), ends with `s` and is blank before it. |
| Text.PadIdempotent | Program.cs:96-97 | Padding twice to the same width is padding once. |
| Text.Lower | GeoIP.cs:41 | Same length, no upper-case ASCII letter left, and each character lower-cased in place. This holds under a culture that lower-cases `'I'` to `'i'`. |
| Text.LowerIdempotent | GeoIP.cs:41 | Lower-casing twice is lower-casing once; a string without capitals is its own lower case. |
| Text.Contains | GeoIP.cs:45-56 | True exactly when the needle occurs at some index of the text. |
| Text.ContainsWithin | GeoIP.cs:45-56 | A text built around the needle contains it. |
| Text.JoinSpace | GeoIP.cs:91 | The joined text starts with the first part, followed by a space when there are more parts. |
| Text.SplitJoin | GeoIP.cs:91 | Splitting at spaces undoes joining space-free parts with spaces. |
| Text.Distinct | GeoIP.cs:91 | No duplicates, the same elements as the input, and no longer than it. |
| Text.DistinctFirstOrder | GeoIP.cs:91 | The kept elements come in the order of their first occurrences in the input. |
| Text.DistinctOfDistinct | GeoIP.cs:91 | A list without duplicates is its own `Distinct`, so `Distinct` is idempotent. |
| Text.IntToDecimal | Program.cs:96 | A minus sign exactly when the number is negative. After it come decimal digits, at least one, which read back as the number's magnitude. |
| Text.NatToDecimal | Program.cs:96 | At least one digit, all decimal, and no leading zero except for 0 itself. |
| Text.DecimalRoundTrip | Program.cs:96 | Reading back the decimal text of a number gives the number. |
| Text.DecimalWidth | Program.cs:96 | Numbers below 10, 100 and 1000 take at most one, two and three digits. |

## Left out

- `Ping.Send`, the random payload and the network: replies come from the oracle `send`. Every probe is answered, so TTLs the platform would reject (above 255) and the exceptions `Ping.Send` throws are not modelled.
- A negative `timeout` makes `Ping.Send` throw. The model takes the time-out as a natural number, so that exception path is absent.
- `Parallel.For` and the unsynchronised `Dictionary`: concurrency is not modelled. With real threads, which of two equal `Success` addresses is recorded depends on completion order, and concurrent `Add` calls can corrupt the dictionary. The model fixes ascending TTL order.
- Dictionary enumeration order: the model assumes insertion order for a dictionary that is only appended to, or whose last entry is removed and one then added. `Last()` and the output loop depend on this order. .NET does not document it, though its implementation behaves so.
- Text.PadRight: lengths are counted in Unicode scalar values (a Dafny `char`), while .NET's `PadRight` counts UTF-16 code units. For each character outside the Basic Multilingual Plane in the padded text, the model adds one blank more than the source, up to the width. This shifts the widths stated for `AsSegment` (50) and `CitySegment` (8 and 20), and the carrier column of `GeoStrColumns`, for names outside that plane. The hop digits padded by `FormatLine` are ASCII and are unaffected.
- Text.PadLeft: the same counting difference. The model left-pads by one blank more than `PadLeft`, up to the width, because it counts each character outside the Basic Multilingual Plane once where .NET counts two code units. The texts it pads are the address in `FormatLine` and the carrier label in `CarrierSegment`, and both are ASCII, so the stated columns are unaffected.
- Text.Lower: the parameterless `ToLower` at GeoIP.cs:41 uses the current culture. The model assumes a culture whose lower case of `'I'` is `'i'`, and it lower-cases only the ASCII capitals. Under Turkish or Azeri, `'I'` becomes dotless `'ı'`, so "CHINA MOBILE" matches no keyword and the source returns "" where the model returns CM. Non-ASCII capitals are left as they are, but .NET lower-cases a few of them to ASCII letters: U+212A KELVIN SIGN becomes `'k'`. Such characters can change the label. Under "CN", "COMPUTER NETWORK INFORMATION CENTER" with that sign as the `K` of "NETWORK" is CERNET in the source and "" in the model.
- GeoIP.CnIspIgnoresCase: it holds only under the same culture assumption as `Text.Lower`. It fails for Turkish and Azeri.
- District entries that are null: `String.Join` prints them as empty. The model takes districts as strings.
- The MaxMind and ipdb readers, `GetAsnCityValueTuple`'s `Task.WaitAll` and the culture check are out. Their results are the inputs `asn`, `city` and `districts`, plus the flag `isZh`.
- `IPAddress.ToString` and `IsLoopback`: the printed address text and the loopback test are parameters. Report.LineColumns and Report.AlignedLines state their column facts only for texts of at most 15 characters, that is dotted IPv4 addresses.
- The inner `try` around the AS segment (GeoIP.cs:79-87) cannot fire: string interpolation of null values prints them empty. It is not modelled.
- `Console.WriteLine` in the catch blocks, the database download and spinner, command-line parsing, `GetHostName` and `ClearCurrentConsoleLine` are console and network I/O.
- Hops.TraceRoute: the composition of `FinalReplies` and `SortAndCompact` carries no contract of its own. Its properties are stated on `SortAndCompact`, which every lemma uses with an arbitrary reply function.
