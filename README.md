# Command-line value parsers of reth, modelled in Dafny

This project models the value parsers in `crates/cli/util/src/parsers.rs`.
These parsers turn command-line strings into typed values:

- `parse_duration_from_secs` reads a whole string as a number of seconds.
- `parse_duration_from_secs_or_ms` reads a number with an optional unit suffix. `ms` means milliseconds and is tested first. `s`, or no suffix, means seconds. Every trailing copy of the suffix is removed (`trim_end_matches`) before the number is read.
- `hash_or_num_value_parser` names a block by its 32-byte hash when the hash parser accepts the string. Otherwise it reads the string as a `u64` block number, or fails with that integer-parse error.
- `parse_socket_address` refuses the empty string with `Empty`. A port after `:` or `localhost:` is that port on 127.0.0.1. A malformed port there is a `Port` error. A bare `u16` is also a port on 127.0.0.1. Anything else goes to the host resolver. A resolver failure is `Io`. An empty answer is `Parse` carrying the input. Otherwise the result is the first address returned.

The files:

- `wrappers.dfy` holds `Option` and `Result`.
- `rust_str.dfy` (module `RustStr`) models the `str` methods used: `ends_with`, `strip_prefix` and `trim_end_matches`. `StartsWith` is the test inside `strip_prefix`. `is_empty` is written `value == []`.
- `rust_int.dfy` (module `RustInt`) models `u16`/`u64` `FromStr` and decimal `to_string`. Parsing accepts one optional `+`, then ASCII digits. `""` gives `Empty`. A lone `+` or `-`, or any non-digit, gives `InvalidDigit`. A value past the maximum gives `PosOverflow`. Digits are read left to right, and the first failing position decides the error. The parser is a recursive scan (`ScanDigits`). It is proved equal to a reference reading built from the value of the leading run of digits (`Value`, `LeadingDigits`, `RejectionKind`).
- `b256_hex.dfy` (module `B256Hex`) holds `B256`, whose bytes are a sequence of exactly 32 bytes (`Bytes32`), and gives one concrete reading of `B256::from_str`: an optional `0x`, then exactly 64 hex digits. It also gives the hash's display form, `0x` plus lower-case hex. This reading is an assumption about the alloy library, which is not part of this model.
- `parsers.dfy` (module `Parsers`) holds the four parsers and `SocketAddressParsingError`. The hash parser and the resolver are parameters: `parseHash: string -> Option<B256>` and `resolve: string -> Resolution`. Every property holds for any hash parser and any resolver, except the three lemmas that name `B256FromStr`.

A `Duration` is a whole number of milliseconds. So `Duration::from_secs(n)` is `n * 1000` and `Duration::from_millis(n)` is `n`.

`5ns` ends with `s`, so `parse_duration_from_secs_or_ms` takes the seconds branch, and the remainder `5n` is rejected with `InvalidDigit` (`Parsers.NanosSuffixIsRejected`, `Parsers.NanosExample`).

## Model

| member | source | states |
|---|---|---|
| `RustStr.StripPrefix` | crates/cli/util/src/parsers.rs:74 | a remainder exists exactly when the string starts with the prefix, and prefix + remainder is the string |
| `RustStr.EndsWith` | crates/cli/util/src/parsers.rs:25-27 | the suffix matches the end of the string exactly when the string is what precedes the suffix followed by the suffix |
| `RustStr.EndsWithSplit` | crates/cli/util/src/parsers.rs:25-27 | a string ends with a suffix exactly when it is some string followed by that suffix |
| `RustStr.TrimEndMatches` | crates/cli/util/src/parsers.rs:26-28 | the result is no longer than the input, an empty pattern removes nothing, and a non-empty pattern no longer ends the result; what was removed is characterised by `TrimEndMatchesRemovesCopies` and `TrimEndMatchesOfRepeat` |
| `RustStr.TrimEndMatchesStep` | crates/cli/util/src/parsers.rs:26-28 | trimming a string that ends with the pattern is trimming it without that copy, and one more copy is counted |
| `RustStr.TrimEndMatchesRemovesCopies` | crates/cli/util/src/parsers.rs:26-28 | the input is the trimmed result followed by a whole number of copies of the pattern (`TrimmedCopies` of them) |
| `RustStr.TrimEndMatchesOfRepeat` | crates/cli/util/src/parsers.rs:26-28 | appending k copies of a non-empty pattern to a string that trimming leaves unchanged is undone exactly by trimming |
| `RustInt.ParseUnsigned` | crates/cli/util/src/parsers.rs:13 | integer `parse` succeeds exactly on an optional `+` followed by one or more digits whose value is at most the maximum, and returns that value; otherwise the error is `Empty` for `""`, `PosOverflow` when the leading digits already exceed the maximum, else `InvalidDigit` |
| `RustInt.ScanDigitsCorrect` | crates/cli/util/src/parsers.rs:13 | the left-to-right digit loop, from any prefix not yet overflowed, ends in overflow, an invalid digit or the value, exactly as the reference reading says |
| `RustInt.ParseU64` | crates/cli/util/src/parsers.rs:30 | `u64` parse: accepts exactly the `u64` literals and gives their value, else the reference error |
| `RustInt.ParseU16` | crates/cli/util/src/parsers.rs:75 | `u16` parse: accepts exactly the literals up to 65535 and gives their value, else the reference error |
| `RustInt.ToDecimal` | crates/cli/util/src/parsers.rs:129 | `to_string` gives a non-empty digit string with no leading zero whose value is the number |
| `RustInt.FormatThenParse` | crates/cli/util/src/parsers.rs:129-134 | the decimal form of n parses back to n when n fits, and overflows otherwise |
| `RustInt.ParseThenFormat` | crates/cli/util/src/parsers.rs:129 | a canonical digit string is the decimal form of its own value |
| `RustInt.U64DecimalLength` | crates/cli/util/src/parsers.rs:38 | every `u64` prints in at most 20 digits |
| `B256Hex.B256FromStr` | crates/cli/util/src/parsers.rs:36 | under the stated reading, a hash is accepted exactly when the text after an optional `0x` is 64 hex digits; the accepted hash encodes back to those digits in lower case; its type holds exactly 32 bytes |
| `B256Hex.DecodeEncodeHex` | crates/cli/util/src/parsers.rs:36 | hex decoding undoes hex encoding |
| `B256Hex.EncodeDecodeHex` | crates/cli/util/src/parsers.rs:36 | hex encoding of decoded digits gives back the digits with their letters in lower case |
| `B256Hex.DisplayThenParse` | crates/cli/util/src/parsers.rs:36 | every hash's display form parses back to the same hash |
| `Parsers.FromSecs` | crates/cli/util/src/parsers.rs:14 | `Duration::from_secs(n)` is n whole seconds with no sub-second part |
| `Parsers.FromMillis` | crates/cli/util/src/parsers.rs:26 | `Duration::from_millis(n)` is `n / 1000` whole seconds and `n % 1000` milliseconds |
| `Parsers.ParseDurationFromSecs` | crates/cli/util/src/parsers.rs:12-15 | succeeds exactly on a `u64` literal and gives that many seconds; otherwise the integer-parse error of the argument |
| `Parsers.ParseDurationFromSecsOrMs` | crates/cli/util/src/parsers.rs:22-32 | ending in `ms`: the argument with all trailing `ms` removed, read as milliseconds; else ending in `s`: with all trailing `s` removed, read as seconds; else the whole argument read as seconds; each with that remainder's integer-parse error on failure |
| `Parsers.ParseU64OfDecimal` | crates/cli/util/src/parsers.rs:13 | the decimal form of any `u64` parses back to it |
| `Parsers.PlainNumberIsSeconds` | crates/cli/util/src/parsers.rs:12-32 | the decimal form of any `u64` n is n seconds for both duration parsers |
| `Parsers.MillisSuffixIsMillis` | crates/cli/util/src/parsers.rs:25-26 | n followed by k >= 1 copies of `ms` is n milliseconds, not n seconds |
| `Parsers.SecondsSuffixIsSeconds` | crates/cli/util/src/parsers.rs:27-28 | n followed by k >= 1 copies of `s` is n seconds |
| `Parsers.NanosSuffixIsRejected` | crates/cli/util/src/parsers.rs:27-28 | every string ending in `ns` is rejected |
| `Parsers.ExtraMillisSuffix` | crates/cli/util/src/parsers.rs:25-26 | appending one more `ms` to an argument that already ends in `ms` does not change the result |
| `Parsers.MillisExample` | crates/cli/util/src/parsers.rs:140-141 | `5ms` is 5 milliseconds |
| `Parsers.RepeatedMillisExample` | crates/cli/util/src/parsers.rs:26 | `5msms` is 5 milliseconds |
| `Parsers.PlainExample` | crates/cli/util/src/parsers.rs:143-144 | `5` is 5 seconds |
| `Parsers.SecondsExample` | crates/cli/util/src/parsers.rs:146-147 | `5s` is 5 seconds |
| `Parsers.NanosExample` | crates/cli/util/src/parsers.rs:149 | `5ns` fails with `InvalidDigit` |
| `Parsers.HashOrNumValueParser` | crates/cli/util/src/parsers.rs:35-40 | if the hash parser accepts the input, the result is that hash; a `Number` or an error occurs only when it refuses; then the result is `Ok` exactly on a `u64` literal, and that success is always `Number` carrying its value, else that integer-parse error |
| `Parsers.DecimalIsBlockNumber` | crates/cli/util/src/parsers.rs:36-38 | under the stated hash reading, the decimal form of any `u64` n is block number n |
| `Parsers.DisplayedHashIsBlockHash` | crates/cli/util/src/parsers.rs:36-37 | under the stated hash reading, a hash's display form is that block hash |
| `Parsers.DecimalDigitsOfHashLengthAreHash` | crates/cli/util/src/parsers.rs:36-37 | under the stated hash reading, 64 decimal digits are a hash, not a number |
| `Parsers.IsLoopback` | crates/cli/util/src/parsers.rs:120 | an IPv4 address is loopback exactly when its 32-bit value lies in 127.0.0.0/8; an IPv6 address, always eight 16-bit segments, exactly when their 128-bit value is 1 (`::1`) |
| `Parsers.PortText` | crates/cli/util/src/parsers.rs:74 | the port text is what follows `:`, or else what follows `localhost:` |
| `Parsers.ParseSocketAddress` | crates/cli/util/src/parsers.rs:69-85 | `Empty` exactly for `""`; a `Port` error only after a port prefix; every locally answered success is on 127.0.0.1; otherwise success exactly when the resolver returns addresses, and then it is the first one |
| `Parsers.PrefixedPort` | crates/cli/util/src/parsers.rs:74-77 | after `:` or `localhost:`, a valid port gives that port on 127.0.0.1, and anything else gives `Port` carrying the integer-parse error, never `Io` or `Parse` |
| `Parsers.BarePort` | crates/cli/util/src/parsers.rs:78-80 | a `u16` literal alone gives that port on 127.0.0.1 |
| `Parsers.PortShorthandsAreLoopback` | crates/cli/util/src/parsers.rs:125-136 | for every port p, `p`, `:p` and `localhost:p` all give p on 127.0.0.1, which is a loopback address |
| `Parsers.LocalAnswerIgnoresResolver` | crates/cli/util/src/parsers.rs:70-80 | for the empty string, a prefixed port and a bare port, any two resolvers give the same result |
| `Parsers.ResolvedAddress` | crates/cli/util/src/parsers.rs:81-84 | for other strings, a resolver failure is `Io`, an empty answer is `Parse` with the input, and otherwise the result is the first address |
| `Parsers.OutOfRangeBarePortIsResolved` | crates/cli/util/src/parsers.rs:78-84 | a bare number above 65535 is not a `Port` error; it goes to the resolver |
| `Parsers.BarePortExample` | crates/cli/util/src/parsers.rs:116-121 | `9000` gives port 9000 on 127.0.0.1 |
| `Parsers.ColonPortExample` | crates/cli/util/src/parsers.rs:116-121 | `:9000` gives port 9000 on 127.0.0.1 |
| `Parsers.LocalhostPortExample` | crates/cli/util/src/parsers.rs:116-121 | `localhost:9000` gives port 9000 on 127.0.0.1 |

## Left out

- `parse_ether_value` (parsers.rs:100-107) is left out. It parses an `f64`, multiplies by 1e18 and truncates to `u128`, and floating point is not modelled.
- `read_json_from_file` (parsers.rs:88-90) is left out. It is file I/O plus JSON deserialisation in `reth_fs_util`, which is not part of this model.
- Host resolution (`to_socket_addrs`, DNS and the hosts file) is the parameter `resolve`. Its internals are not modelled, and neither is the `IoError` it carries.
- `B256::from_str` is the parameter `parseHash`. `B256Hex.B256FromStr` is one assumed reading of it, used only by the lemmas that name it. Its case rules for the `0x` prefix are not checked against alloy.
- The error messages of `SocketAddressParsingError` and the `eyre` error boxing are formatting only, and are not modelled. `hash_or_num_value_parser` returns the bare integer-parse error kind.
- `ParseIntError` is modelled by its kind only (`Empty`, `InvalidDigit`, `PosOverflow`). Its message is left out.
- IPv6 addresses are modelled only as their eight 16-bit segments (`Segments8`). A socket address is an IP and a port; IPv6 `flowinfo` and `scope_id` are not modelled. The IP and port of the address the resolver returns first are passed through untouched.
- The randomised port test (parsers.rs:125-136) becomes `Parsers.PortShorthandsAreLoopback`, which covers every `u16`.
- Unicode is not modelled: strings are sequences of characters, and any character that is not an ASCII digit is an invalid digit, as Rust treats each of its bytes.
