# events.duration and the private-IP URL validator, modelled in Dafny

This project models two parts of flux.

**`events.duration`** (`stdlib/contrib/tomhollingworth/events/duration.go`)
is a transformation. For every table it adds an integer column that holds, for
each row, the time to the next row. For the last row it holds the time to a
stop time, which is either given explicitly or read from the stop column of
the table's last buffer. Times are divided by a unit, one second by default.
The model covers:

- argument reading with defaults (`createDurationOpSpec`);
- the planner step (`newDurationProcedure`) and `Copy`;
- creation of the transformation with a fresh builder cache;
- `Process`: the duplicate-key refusal, the column checks in source order,
  adding the output columns, and the walk over every buffer and row that
  appends the durations, including across buffer boundaries and the final
  duration.

`Process` is imperative Dafny on a `DurationTransformation` object and its
`TableBuilderCache` and `TableBuilder` objects (`duration_process.dfy`,
`tables.dfy`). Its loops are proved against a specification function,
`OutputColumns` (`duration_output.dfy`). That function says that the output is
every column of the table in reading order, followed by `Durations` of the
time column. `Durations` is then characterised row by row, shown to telescope
to `stop - first` when the unit is one nanosecond, shown to be non-negative
for ordered rows, and shown to measure across buffer boundaries.

**The URL validators** (`dependencies/url/validator.go`) decide whether flux
may connect to a host:

- `PassValidator` allows everything;
- `ErrorValidator` refuses everything with a fixed `Invalid` error;
- `PrivateIPValidator` refuses a host when any of its resolved addresses lies
  in one of nine private or local blocks.

The block list is built by an imperative parse loop (`ParseBlocks`, `Init`).
The parts of Go's `net` package that the validator relies on are modelled in
`ipnets.dfy` from their documented behaviour: `IP.To4`, `CIDRMask`,
`ParseCIDR` on an already split literal, and `IPNet.Contains`.

The central results are:

- block containment is prefix comparison on the IPv4-normalised address
  (`IPNets.ContainsIffPrefix`, section 3.1 of RFC 4632);
- the exact address ranges the nine blocks reject, for IPv4
  (`PrivateV4Ranges`) and for IPv6 (`PrivateV6Ranges`);
- an IPv4-mapped IPv6 address is judged exactly like the IPv4 address it
  embeds (`MappedLikeEmbedded`).

Files:

- `basics.dfy`: `Option`, `Result` and the flux error codes.
- `ipnets.dfy`: Go's `net` addresses and networks.
- `url_validator.dfy`: the validators and the private block list.
- `tables.dfy`: tables, the table builder and the builder cache.
- `duration_spec.dfy`: the op spec, the procedure spec and `Copy`.
- `duration_output.dfy`: the specification of `Process`'s output, and its
  properties.
- `duration_process.dfy`: the transformation object and `Process`.

## Model

| member | source | states |
|---|---|---|
| UrlValidator.ParseBlocks | dependencies/url/validator.go:63-81 | The parse loop succeeds exactly when every literal is well-formed. On success it returns one block per literal, in order, and each block is what `ParseCIDR` makes of its literal. On failure it reports the first malformed literal, which is the point where `init` would panic. |
| UrlValidator.Init | dependencies/url/validator.go:63-81 | Running `init` over the nine literals never reaches the panic, and it builds exactly `PrivateIPBlocks`. |
| UrlValidator.PrivateCidrsWellFormed | dependencies/url/validator.go:64-74 | Each of the nine literals is a well-formed CIDR and is not an IPv4-mapped address. |
| UrlValidator.InitParsesPrivateCidrs | dependencies/url/validator.go:64-80 | Block k of `PrivateIPBlocks` is what `ParseCIDR` returns for literal k, for all nine literals. |
| UrlValidator.IsPrivateIP | dependencies/url/validator.go:84-91 | `isPrivateIP` holds exactly when some block of `PrivateIPBlocks` contains the address. |
| UrlValidator.AnyBlockContains | dependencies/url/validator.go:84-91 | The block search is true exactly when some block of the list contains the address. |
| UrlValidator.IsPrivateIPByBlock | dependencies/url/validator.go:84-91 | `isPrivateIP` holds exactly when one of the nine blocks contains the address. |
| UrlValidator.ValidateIP | dependencies/url/validator.go:51-58 | `PassValidator` accepts every address. `ErrorValidator` refuses every address with its fixed `Invalid` message. `PrivateIPValidator` refuses exactly the private addresses, and always with the vague `Invalid` "no such host". |
| UrlValidator.FirstRejection | dependencies/url/validator.go:42-48 | The loop over resolved addresses yields no error or "no such host", and nothing else. |
| UrlValidator.FirstRejectionSpec | dependencies/url/validator.go:42-48 | The loop yields no error exactly when none of the resolved addresses is private. |
| UrlValidator.FirstRejectionAt | dependencies/url/validator.go:42-47 | When the loop rejects, some resolved address is private, and every address before the first such one is public. |
| UrlValidator.Validate | dependencies/url/validator.go:37-49 | For `Validate`: Pass accepts; Error refuses with its fixed message; PrivateIP passes a failed lookup's error through unchanged. After a successful lookup, PrivateIP accepts exactly when no resolved address is private, and otherwise refuses with "no such host". |
| UrlValidator.V4InBlock0 | dependencies/url/validator.go:65 | 0.0.0.0/32 contains the IPv4 address a.b.c.d exactly when it is 0.0.0.0. |
| UrlValidator.V4InBlock1 | dependencies/url/validator.go:66 | 127.0.0.0/8 contains a.b.c.d exactly when a is 127. |
| UrlValidator.V4InBlock2 | dependencies/url/validator.go:67 | 10.0.0.0/8 contains a.b.c.d exactly when a is 10. |
| UrlValidator.V4InBlock3 | dependencies/url/validator.go:68 | 172.16.0.0/12 contains a.b.c.d exactly when a is 172 and b is between 16 and 31. |
| UrlValidator.V4InBlock4 | dependencies/url/validator.go:69 | 192.168.0.0/16 contains a.b.c.d exactly when it starts 192.168. |
| UrlValidator.V4InBlock5 | dependencies/url/validator.go:70 | 169.254.0.0/16 contains a.b.c.d exactly when it starts 169.254. |
| UrlValidator.V4NotInV6Blocks | dependencies/url/validator.go:71-73 | No 4-byte address is contained in the three IPv6 blocks. |
| UrlValidator.V6NotInV4Blocks | dependencies/url/validator.go:65-70 | No 16-byte address that is not IPv4-mapped is contained in the six IPv4 blocks. |
| UrlValidator.V6InBlock6 | dependencies/url/validator.go:71 | ::1/128 contains a non-mapped 16-byte address exactly when it is ::1. |
| UrlValidator.V6InBlock7 | dependencies/url/validator.go:72 | fe80::/10 contains a non-mapped address exactly when its first byte is 0xfe and its second is 0x80 to 0xbf. |
| UrlValidator.V6InBlock8 | dependencies/url/validator.go:73 | fc00::/7 contains a non-mapped address exactly when its first byte is 0xfc or 0xfd. |
| UrlValidator.PrivateV4Ranges | dependencies/url/validator.go:65-70 | An IPv4 address is private exactly when it is 0.0.0.0 or lies in 127/8, 10/8, 172.16/12, 192.168/16 or 169.254/16. |
| UrlValidator.PrivateV6Ranges | dependencies/url/validator.go:71-73 | A 16-byte address that is not IPv4-mapped is private exactly when it is ::1 or lies in fe80::/10 or fc00::/7. |
| UrlValidator.PrivacyFollowsNormalForm | dependencies/url/validator.go:86 | Two addresses with the same `To4` normal form are both private or both public. |
| UrlValidator.MappedLikeEmbedded | dependencies/url/validator.go:86 | ::ffff:a.b.c.d is private exactly when a.b.c.d is in one of the private IPv4 ranges. |
| UrlValidator.PrivateIffPrefixMatch | dependencies/url/validator.go:63-91 | An address is private exactly when its normal form has the length of some literal and agrees with it on that literal's first prefix-length bits. |
| UrlValidator.Rfc1918Boundary | dependencies/url/validator.go:68 | 172.16.0.0 and 172.31.255.255 are private, and their neighbours 172.15.255.255 and 172.32.0.0 are not. |
| UrlValidator.UnspecifiedBoundary | dependencies/url/validator.go:65 | 0.0.0.0 is private and 0.0.0.1 is not. |
| UrlValidator.LinkLocalV4 | dependencies/url/validator.go:70 | Every 169.254.x.y is private. |
| UrlValidator.PublicAddressAccepted | dependencies/url/validator.go:51-58 | `PrivateIPValidator` accepts 8.8.8.8 and ::ffff:8.8.8.8, and refuses ::ffff:127.0.0.1 with "no such host". |
| IPNets.Normalise | dependencies/url/validator.go:86 | The address `Contains` compares is the last four bytes of a 4-byte or IPv4-mapped address, and the address itself otherwise. |
| IPNets.Contains | dependencies/url/validator.go:86 | `IPNet.Contains` holds exactly when the normalised address has the length of the network number and every byte agrees with it under the mask. The byte loop `MaskedEqual` is tied to this by `MaskedEqualEveryByte`. |
| IPNets.To4 | dependencies/url/validator.go:86 | `To4` gives an address exactly for 4-byte and IPv4-mapped inputs, and that address is the last four bytes. |
| IPNets.CIDRMask | dependencies/url/validator.go:75 | For 32 or 128 bits and a prefix no longer than that, the mask has bits/8 bytes, and byte i has as many leading ones as the prefix leaves for it. |
| IPNets.MaskIP | dependencies/url/validator.go:75 | Masking keeps the length and ANDs each byte with its mask byte. |
| IPNets.ParseCIDR | dependencies/url/validator.go:75 | A literal parses exactly when it is well-formed (4 or 16 bytes, prefix at most the bit length). The network and mask then have the literal's length. |
| IPNets.NetworkNumberAndMask | dependencies/url/validator.go:86 | The network number and the mask it returns always have the same length. |
| IPNets.MaskedEqualEveryByte | dependencies/url/validator.go:86 | `Contains`' byte loop succeeds exactly when every byte agrees under its mask. |
| IPNets.ContainsIffPrefix | dependencies/url/validator.go:86 | A block parsed from a non-mapped literal contains an address exactly when the normalised address has the literal's length and shares its first prefix-length bits. |
| Tables.ColIdx | stdlib/contrib/tomhollingworth/events/duration.go:204 | The lookup gives -1 exactly when no column has the name. Otherwise it gives the first column with that name. |
| Tables.FirstRepeat | stdlib/contrib/tomhollingworth/events/duration.go:199-202 | For columns with a repeated name, this is the first index whose name already occurred before it. |
| Tables.FirstRepeatUnique | stdlib/contrib/tomhollingworth/events/duration.go:199-202 | Any index whose name repeats an earlier one, with no repeat before it, is `FirstRepeat`. |
| Tables.AddTableCols | stdlib/contrib/tomhollingworth/events/duration.go:199-202 | Copying the table's columns into the empty builder succeeds exactly when the names are distinct. It then gives the builder the table's columns, each still empty. Otherwise it reports the first repeated name. |
| Tables.TableBuilder.AddCol | stdlib/contrib/tomhollingworth/events/duration.go:219-227 | A taken name is refused and the builder is unchanged. A new name becomes an empty last column, and its index is returned. |
| Tables.TableBuilder.AppendInt | stdlib/contrib/tomhollingworth/events/duration.go:256 | Only column j changes, and it grows by the integer. |
| Tables.TableBuilder.AppendValue | stdlib/contrib/tomhollingworth/events/duration.go:267 | Only column j changes, and it grows by the value. |
| Tables.ColMap | stdlib/contrib/tomhollingworth/events/duration.go:229 | Builder column j is mapped to the index of the first table column with its name, or to -1 when the table has none. |
| Tables.ColMapAfterAddCol | stdlib/contrib/tomhollingworth/events/duration.go:219-229 | After the table's distinct columns and a duration column with a fresh name, the map sends each table column to itself and leaves the duration column unmapped. |
| Tables.AppendMappedRecord | stdlib/contrib/tomhollingworth/events/duration.go:267 | Each builder column with a mapped index grows by the row's value at that index. An unmapped column, here the duration column, is unchanged. |
| Tables.TableBuilderCache.constructor | stdlib/contrib/tomhollingworth/events/duration.go:142 | A new cache holds no builders. |
| Tables.TableBuilderCache.TableBuilder | stdlib/contrib/tomhollingworth/events/duration.go:192-195 | It reports creation exactly for a new key. A known key gets its builder back with the cache unchanged. A new key gets a fresh empty builder, which is added under that key alone. |
| Tables.Flatten | stdlib/contrib/tomhollingworth/events/duration.go:242 | The rows `tbl.Do` delivers, buffer after buffer, number the rows of all buffers together. Their order is stated by `FlattenAt`. |
| Tables.FlattenAppend | stdlib/contrib/tomhollingworth/events/duration.go:242 | The rows of two runs of buffers are the rows of the first run followed by those of the second. |
| Tables.FlattenAt | stdlib/contrib/tomhollingworth/events/duration.go:242 | Row i of buffer b sits at position (rows of the earlier buffers) + i of the table's rows. |
| Tables.FlattenLast | stdlib/contrib/tomhollingworth/events/duration.go:277-280 | When the last buffer has rows, the table's last row is the last row of the last buffer. |
| DurationSpec.CodeOf | stdlib/contrib/tomhollingworth/events/duration.go:191-217 | Argument errors are `Invalid`, a wrong spec type is `Internal`, and the duplicate-table and column errors of `Process` are `FailedPrecondition`. |
| DurationSpec.AddParentFromArgs | stdlib/contrib/tomhollingworth/events/duration.go:37-39 | It succeeds exactly when `tables` is present and is a table object. A missing `tables` is a missing-argument error. |
| DurationSpec.GetDuration | stdlib/contrib/tomhollingworth/events/duration.go:43-49 | An absent argument is "not given". A present one is accepted exactly when it is a duration, and the value is returned. |
| DurationSpec.GetString | stdlib/contrib/tomhollingworth/events/duration.go:51-73 | An absent argument is "not given". A present one is accepted exactly when it is a string, and the string is returned. |
| DurationSpec.GetTime | stdlib/contrib/tomhollingworth/events/duration.go:76-83 | An absent argument is "not given". A present one is accepted exactly when it is a time or a duration. A time becomes that absolute time. A duration becomes a time relative to now, offset by that duration. |
| DurationSpec.CreateDurationOpSpec | stdlib/contrib/tomhollingworth/events/duration.go:36-86 | A created spec has `isStop` exactly when a `stop` argument was given. |
| DurationSpec.Defaults | stdlib/contrib/tomhollingworth/events/duration.go:43-83 | With only `tables`, the spec is: unit one second, `_time`, `duration`, `_stop`, stop now, no explicit stop. |
| DurationSpec.ArgumentsTaken | stdlib/contrib/tomhollingworth/events/duration.go:43-83 | Each optional argument that is given is taken as given, and each absent one takes its default. The stop time is exactly what `GetTime` returned: the absolute time given, or the given duration relative to now. |
| DurationSpec.CreateSucceedsIff | stdlib/contrib/tomhollingworth/events/duration.go:36-86 | Creation succeeds exactly when `tables` is a table object and every optional argument given has the right kind. |
| DurationSpec.EarlyAbort | stdlib/contrib/tomhollingworth/events/duration.go:36-86 | A bad `tables` argument is the error regardless of the others. Otherwise the first badly kinded optional argument, in reading order, is the error. |
| DurationSpec.NewDurationProcedure | stdlib/contrib/tomhollingworth/events/duration.go:106-120 | Any other operation kind is an `Internal` invalid-spec-type error. A duration operation becomes a procedure spec with the same six fields. |
| DurationSpec.Copy | stdlib/contrib/tomhollingworth/events/duration.go:126-135 | The copy equals the original. |
| DurationSpec.PlanAndCopyPreserve | stdlib/contrib/tomhollingworth/events/duration.go:106-135 | Creating, planning and copying a spec keeps every field the arguments gave. |
| DurationOutput.TruncDiv | stdlib/contrib/tomhollingworth/events/duration.go:254-256 | The quotient is non-negative when the difference and the unit have the same sign, and non-positive otherwise. |
| DurationOutput.TruncDivBounds | stdlib/contrib/tomhollingworth/events/duration.go:254-256 | In magnitude, the quotient is the largest number of whole units that fits in the difference. This is Go's rounding toward zero when the float quotient is converted to int64. |
| DurationOutput.TruncDivByOne | stdlib/contrib/tomhollingworth/events/duration.go:254-256 | Dividing by a unit of one nanosecond gives the difference itself. |
| DurationOutput.Column | stdlib/contrib/tomhollingworth/events/duration.go:267 | A column of the rows has one value per row, and entry i is row i's value. |
| DurationOutput.TimesOf | stdlib/contrib/tomhollingworth/events/duration.go:245 | The times read have one entry per row, and entry i is row i's time. |
| DurationOutput.Gaps | stdlib/contrib/tomhollingworth/events/duration.go:246-270 | While rows are read, one duration per row except the last has been appended. |
| DurationOutput.GapsAt | stdlib/contrib/tomhollingworth/events/duration.go:253-259 | Gap k is the time from row k to row k+1, divided by the unit. |
| DurationOutput.GapsSnoc | stdlib/contrib/tomhollingworth/events/duration.go:253-260 | Reading one more row appends nothing for the first row, and otherwise appends the duration from the previous row. |
| DurationOutput.Durations | stdlib/contrib/tomhollingworth/events/duration.go:242-294 | There is exactly one duration per row. |
| DurationOutput.DurationsAt | stdlib/contrib/tomhollingworth/events/duration.go:242-294 | Duration k is the time to row k+1, or to the stop time for the last row, divided by the unit. |
| DurationOutput.GapsTelescope | stdlib/contrib/tomhollingworth/events/duration.go:246-270 | With a one-nanosecond unit, the gaps add up to last time minus first time. |
| DurationOutput.DurationsTelescope | stdlib/contrib/tomhollingworth/events/duration.go:242-294 | With a one-nanosecond unit, the durations add up to stop time minus first time. |
| DurationOutput.DurationsNonNegative | stdlib/contrib/tomhollingworth/events/duration.go:242-294 | With a positive unit, rows in time order that end no later than the stop time give only non-negative durations. |
| DurationOutput.AcrossBuffers | stdlib/contrib/tomhollingworth/events/duration.go:242-284 | The last row of a buffer is measured against the first row of the next buffer, not against the stop time. |
| DurationOutput.CheckColumns | stdlib/contrib/tomhollingworth/events/duration.go:199-227 | The checks pass exactly when all of these hold: the table's names are distinct, the time column exists, the stop column exists and holds times (unless a stop is given), and the new column's name is free. Every failure is `FailedPrecondition` or a builder error. |
| DurationOutput.StopColumnIgnored | stdlib/contrib/tomhollingworth/events/duration.go:209-217 | With an explicit stop, the stop column's name does not affect the checks. |
| DurationOutput.MissingTimeFirst | stdlib/contrib/tomhollingworth/events/duration.go:204-207 | A missing time column is reported before anything about the stop column or the new column. |
| DurationOutput.StopTime | stdlib/contrib/tomhollingworth/events/duration.go:237-280 | With an explicit stop, the stop time is that stop. Otherwise it is the stop column's time in the table's last row, which is the last row of the last buffer. |
| DurationOutput.OutputCols | stdlib/contrib/tomhollingworth/events/duration.go:219-227 | The output columns are the table's columns followed by one integer column with the configured name. |
| DurationOutput.OutputColumns | stdlib/contrib/tomhollingworth/events/duration.go:242-294 | The output has one column more than the table. |
| DurationOutput.OutputColumnsAt | stdlib/contrib/tomhollingworth/events/duration.go:242-294 | Output column j is column j of all rows in reading order, and the last output column is the durations of the time column. |
| DurationOutput.NoRowsNoDurations | stdlib/contrib/tomhollingworth/events/duration.go:288-294 | A table without rows gets an empty duration column, so no final duration is appended. |
| DurationProcess.DurationTransformation.constructor | stdlib/contrib/tomhollingworth/events/duration.go:161-173 | The transformation keeps the cache and takes the spec's unit, column names, flags and the stop time's absolute part. |
| DurationProcess.DurationTransformation.Process | stdlib/contrib/tomhollingworth/events/duration.go:191-296 | A key seen before is refused with `DuplicateTable` and the cache is unchanged. A new key gets a fresh builder, added under that key alone, and the result is the first failing column check. On success the builder holds the table's columns plus the duration column, and every table column's values in reading order followed by the durations. |
| DurationProcess.DurationTransformation.Fill | stdlib/contrib/tomhollingworth/events/duration.go:229-294 | After the walk and the final append, the builder's columns are exactly `OutputColumns` for the table, with the stop time taken from the spec or the last row's stop column. |
| DurationProcess.DurationTransformation.ReadAll | stdlib/contrib/tomhollingworth/events/duration.go:242-284 | After every buffer, the builder holds all rows and the durations between them. The last time read is kept, and the recorded stop time is the stop time of the table. |
| DurationProcess.DurationTransformation.ReadNext | stdlib/contrib/tomhollingworth/events/duration.go:242-284 | One turn of `tbl.Do` extends the walk from the rows of the first b buffers to those of the first b+1. Without an explicit stop, it records the stop value of buffer b's last row. |
| DurationProcess.DurationTransformation.ReadBuffer | stdlib/contrib/tomhollingworth/events/duration.go:242-281 | One buffer extends the walk by its rows. Without an explicit stop, the recorded stop time becomes the buffer's last stop value. |
| DurationProcess.DurationTransformation.ReadRow | stdlib/contrib/tomhollingworth/events/duration.go:246-270 | One row extends the walk by that row: its values are appended, and so is the duration from the previous row when there is one. |
| DurationProcess.WalkStart | stdlib/contrib/tomhollingworth/events/duration.go:231-240 | Before any row is read, the empty builder columns describe a walk over no rows. |
| DurationProcess.WalkStep | stdlib/contrib/tomhollingworth/events/duration.go:252-269 | The invariant of the row loop is kept by appending the row and the duration from the previous row. |
| DurationProcess.FinishColumns | stdlib/contrib/tomhollingworth/events/duration.go:286-294 | After the last buffer, appending the duration to the stop time, when a row was read, completes `OutputColumns`. |
| DurationProcess.LastDuration | stdlib/contrib/tomhollingworth/events/duration.go:288-294 | The duration column is the gaps followed by the time from the last row to the stop time. |
| DurationProcess.CreateDurationTransformation | stdlib/contrib/tomhollingworth/events/duration.go:137-146 | Any other procedure kind is an `Internal` invalid-spec-type error. A duration procedure gets a new transformation built from its spec, with a new, empty builder cache. |

## Left out

- DurationProcess.DurationTransformation.Process: requires a non-zero unit. The source divides floats, so a zero unit yields an infinity or NaN, which is then converted to int64 with an unspecified result.
- DurationProcess.DurationTransformation.Process: requires the time column, when present, to hold times. Otherwise the source skips `AddCol` and then fails inside `cr.Times`, which is code outside this model.
- DurationProcess.DurationTransformation.Process: requires that every buffer has a row when no explicit stop is given. The source reads the stop value at index `l - 1` of each buffer, which is out of range for an empty buffer.
- DurationOutput.TruncDiv: computes the exact quotient of the time difference by the unit, truncated toward zero. The source converts both times to float64 before subtracting and dividing, then converts back to int64. Real timestamps are far above 2^53 nanoseconds (about 104 days after 1970), where float64 cannot represent every nanosecond. So for any realistic input, the source's result can be one unit off when a gap lies near a multiple of the unit. For example, a gap of 999 999 900 ns at a time of 1.7e18 ns gives 1 second in the source and 0 in the model. int64 overflow is not modelled either.
- Tables.TableBuilder.AppendInt: cannot fail in the model. The source's builder append errors (allocation failures) are left out, and so are their early returns in `Process`.
- The forwarding methods `RetractTable`, `UpdateWatermark`, `UpdateProcessingTime` and `Finish` (duration.go:175-189) are left out, as is the dataset; they only delegate to `execute` code that is not part of this model.
- The package `init` that registers the function, op spec, procedure spec and transformation (duration.go:28-34) is registry plumbing and is left out. So are `newDurationOp` and the `Kind` methods.
- DurationSpec.AddParentFromArgs: returns the parent's identifier only. Recording the parent in the `Administration` is not modelled.
- The unit is a number of nanoseconds. The month part of a `flux.Duration` is not modelled.
- `flux.Now`'s absolute part is Go's zero time, whose nanosecond count is the wrapped value `ZeroTimeNanos`. The model takes that as a constant.
- The error messages of `Process` and of argument reading are structured values carrying the column, key or argument involved. The formatted text is not modelled. The validators' messages are modelled exactly.
- Cells are never null in the model: every value has its column's type. Flux columns are nullable, and the source reads the time at duration.go:252 and the stop value at duration.go:279 without checking validity. A null time or stop value would therefore yield a duration computed from whatever value the column array stores in that slot. Nulls in other columns are copied through at duration.go:267.
- Several flux `execute` and `flux` APIs are outside this repository's model and are modelled from their assumed behaviour. `CheckColumns`, `Process` and `CreateDurationOpSpec` depend on these assumptions:
  - `AddTableCols` copies the table's columns into the builder and fails on the first repeated name;
  - `ColListTableBuilder.AddCol` refuses a name that is already taken;
  - `TableBuilderCache.TableBuilder` returns the existing builder for a known key and a new empty one otherwise;
  - `ColMap` maps each builder column to the first table column with its name, or to -1;
  - `AppendMappedRecordExplicit` appends row value `colMap[j]` to builder column j and skips builder columns mapped to -1;
  - `Administration.AddParentFromArgs` and the `Arguments` getters `GetDuration`, `GetString` and `GetTime` accept an absent argument as "not given" and refuse a present argument of the wrong kind.
- The host name lookup `net.LookupIP` is a network call. `Validate` takes its outcome (addresses or an error) as a parameter.
- CIDR text is not parsed. The nine literals are written as their address bytes and prefix length, and `IPNets.ParseCIDR` models `net.ParseCIDR` on that split form. Go's `net` package is modelled from its documented behaviour and is not part of the source.
- UrlValidator.ParseBlocks: the panic of `init` on a bad literal becomes the `Err` outcome.
- The `sql.validateDataSource` bypass mentioned in validator.go is outside this file and is left out.
