# cidrrr in Dafny

`cidrrr` is a command-line tool that takes a CIDR block such as `10.10.10.1/24` or
`2001:db8::/113` and prints its host addresses. By default it prints only the first and
the last host. `--all` prints every host, up to 2^20 (1 048 576) of them, and
`--all --danger-zone` lifts that cap. Output is plain lines, CSV with an `"ips"` header,
or a single-line JSON array.

This project models two parts of the tool:

- the address selection in `calculate_all_ips`;
- the three output arms of `main` and its error arm.

It proves what the model prints, and that the printed text reads back as exactly the
selected addresses.

Modules:

- `IpNet`: addresses and networks of either family as numbers below 2^32 or 2^128.
  Also the block a prefix spans, its network and broadcast addresses, and the inclusive
  address range that `ipnet`'s `hosts()` iterates. For IPv4 shorter than /31 that range
  leaves out the network and broadcast addresses. /31, /32 and every IPv6 block keep the
  whole block.
- `Ips`: `calculate_all_ips` as a pure function. It takes the outcome of parsing the CIDR
  text as a parameter, and returns either the error message or the selected addresses.
  It also holds the lemmas about each mode, and `HARD_LIMIT`.
- `IpsExamples`: the repository's unit tests, restated as lemmas about the model.
- `Output`: the `match cli.output` arms as methods. Each pulls from an iterator object
  (`IpStream`, with `Next` and `Peek`) in a loop and appends to the output text. Each is
  proved equal to a specification function (`CsvText`, `JsonText`, `PlainText`). `Run`
  is `main` after argument parsing.
- `Readback`: decoders for the three formats. They prove that each format lists every
  selected address once, in order, and nothing else.
- `AddrText`: the text written for an address (`{ip}`). It is proved injective, because
  parsing the text gives the address back.
- `Numerals`, `Text`, `Wrappers`: powers, base-`b` digits, joining and splitting text,
  quoting, and `Option`/`Result`.

Two facts about the code that the model keeps:

- IPv6 output includes the all-zero address of the block (src/ips.rs:97-101).
- `main` returns normally after `eprintln!` (src/main.rs:43). The model claims no exit
  status.

## Model

| member | source | states |
|---|---|---|
| Ips.CalculateAllIps | src/ips.rs:8-28 | It fails exactly when the CIDR text does not parse, with the message `'<cidr>' is an invalid CIDR: <reason>`. Otherwise it yields, in order, the selected host addresses, each of the network's own family. |
| Ips.SelectHosts | src/ips.rs:17-25 | `--all --danger-zone` yields the whole host range. `--all` alone yields the first min(n, HARD_LIMIT) hosts in order. Without `--all` it yields at most two addresses. Every address is inside the host range, and the addresses strictly increase. |
| Ips.FirstAndLast | src/ips.rs:22-24 | `next()` chained with `last()` of what remains gives nothing for an empty range, the single element of a one-element range, and otherwise the first and the last element. |
| Ips.Take | src/ips.rs:20 | `take(k)` keeps the first min(length, k) elements, as a prefix. |
| Ips.FirstAndLastHosts | src/ips.rs:21-24 | Without `--all`, a block of one address gives that address once. Any larger block gives its first host, then its last host, and the first lies below the last. |
| Ips.SingleAddressBlock | src/ips.rs:50-54 | A /32 or /128 block gives exactly its own address in every mode. |
| Ips.CappedHosts | src/ips.rs:6 | With `--all` and no `--danger-zone`, the output is a prefix of the host range. Its length is min(hosts, 2^20), where hosts is the block size, less two when the ends are excluded. |
| Ips.AllHosts | src/ips.rs:17-18 | With `--all --danger-zone`, the output is the whole host range, with no cap. |
| Ips.SelectedInBlock | src/ips.rs:68-70 | Every printed address lies in the block. Where `hosts()` excludes the ends, no printed address is the network or the broadcast address. |
| Ips.V6KeepsEnds | src/ips.rs:99-101 | For IPv6, with `--all --danger-zone`, both the all-zeros and the all-ones address of the block are printed. |
| Ips.HostBitsIgnored | src/ips.rs:44-48 | Two networks with the same family and prefix, whose addresses lie in one block, print the same addresses: the host bits of the CIDR text do not matter. |
| IpNet.Hosts | src/ips.rs:18 | The host range lies inside the address space. For IPv4 shorter than /31, it runs from one past the network address to one before the broadcast address. Otherwise (IPv4 /31 and /32, every IPv6 block) it runs from the network address to the broadcast address. |
| IpNet.HostsMembers | src/ips.rs:68-70 | An address is a host exactly when it is in the block and is not an excluded end. Both directions are proved. |
| IpNet.HostsCount | src/ips.rs:18 | The number of hosts is the block size, less two where the ends are excluded. It is at least one. |
| IpNet.InBlockRange | src/ips.rs:18-22 | An address is in the block exactly when it lies between the network and the broadcast address. |
| IpNet.NetworkAddr | src/ips.rs:18-22 | The network address is a multiple of the block size. It lies at or below the given address, in the same block, and the block fits in the address space. |
| IpNet.BroadcastAddr | src/ips.rs:18-22 | The broadcast address is at least the network address and lies inside the address space. The address after it is a multiple of the block size, so every host bit is set. |
| IpNet.InElements | src/ips.rs:18 | An inclusive address range contains exactly the numbers from its start to its end. |
| IpsExamples.V4FirstAndLast | src/ips.rs:43-48 | `10.10.10.1/24` without `--all` prints 10.10.10.1 and 10.10.10.254. |
| IpsExamples.V4SingleHost | src/ips.rs:50-54 | `10.10.10.1/32` prints 10.10.10.1 alone. |
| IpsExamples.V4ShowAll | src/ips.rs:57-62 | `10.10.10.1/8` with `--all` prints exactly HARD_LIMIT addresses. |
| IpsExamples.V4ShowAllInDangerZone | src/ips.rs:64-71 | `10.10.10.0/8` with `--all --danger-zone` starts at 10.0.0.1 and ends at 10.255.255.254. |
| IpsExamples.V6FirstAndLast | src/ips.rs:73-86 | `2001:db8::/113` prints `2001:db8::` and `2001:db8::7fff`. `2001:db8::/128` prints `2001:db8::` alone. |
| IpsExamples.V6ShowAll | src/ips.rs:88-93 | `2001:db8::/106` with `--all` prints exactly HARD_LIMIT addresses. |
| IpsExamples.V6ShowAllInDangerZone | src/ips.rs:95-102 | `2001:db8::/106` with `--all --danger-zone` starts at `2001:db8::` and ends at `2001:db8::3f:ffff`. |
| Output.IpStream.Next | src/main.rs:18 | Yields the first remaining address and drops it, or yields nothing when none remain. |
| Output.IpStream.Peek | src/main.rs:28 | Shows what `Next` would yield, without changing anything. |
| Output.WriteCsv | src/main.rs:16-21 | The CSV arm writes the line `"ips"`, then each address, quoted, on its own line, in order. |
| Output.WriteJson | src/main.rs:22-36 | The JSON arm, with its peek-before-comma loop, writes `[`, then the quoted addresses separated by single commas, then `]` and a newline. |
| Output.WritePlain | src/main.rs:37-41 | The plain arm writes each address on its own line, in order. |
| Output.Run | src/main.rs:9-45 | On success, standard output is the chosen format of `calculate_all_ips`'s addresses, and standard error is empty. On failure, standard output is empty, and standard error is `Error: ` followed by the message of `calculate_all_ips` and a newline. |
| Output.JsonShape | src/main.rs:23-35 | JSON output is always bracketed and newline-terminated. No addresses give `[]`, one gives `["X"]`, and otherwise a quote precedes the closing bracket, so there is never a dangling comma. |
| Output.CsvStep | src/main.rs:18-20 | One more address extends the CSV text by exactly its quoted line. |
| Output.JsonStep | src/main.rs:27-33 | One more address extends the JSON items by the address, after a comma unless it is the first. |
| Output.PlainStep | src/main.rs:38-40 | One more address extends the plain text by exactly its line. |
| Readback.PlainRoundTrip | src/main.rs:37-41 | Decoding plain output gives back exactly the printed addresses, in order. |
| Readback.CsvRoundTrip | src/main.rs:16-21 | Decoding CSV output, header first, gives back exactly the printed addresses, in order. |
| Readback.JsonRoundTrip | src/main.rs:22-36 | Decoding JSON output gives back exactly the printed addresses, in order, and gives the empty list for `[]`. |
| Readback.CsvLines | src/main.rs:17-19 | CSV output splits into the header line, followed by one quoted line per address. |
| Readback.RenderPlain | src/main.rs:19 | No address text contains a quote, a comma or a newline, so the quoting and separators of each format are unambiguous. |
| AddrText.ParseRender | src/main.rs:39 | Reading back the text of an address gives the address, for both families. |
| AddrText.RenderInjective | src/main.rs:39 | Two addresses with the same text are the same address. |
| AddrText.RenderAlphabet | src/main.rs:39 | An address text is non-empty, and it uses only digits and its family's separator. |

## Left out

- Command-line parsing (src/cli.rs, `Cli::parse`, clap) is not modelled. `Run` receives the parsed flags as a `Cli` value.
- CIDR text parsing (`str::parse::<IpNet>`) is not modelled. `CalculateAllIps` takes its outcome as the `parsed` parameter: the network, or the text of the parse error.
- AddrText.Render: writes IPv6 as eight lower-case hex groups without `::` compression, and never in the IPv4-embedded form. Rust's `Display` follows RFC 5952, so for IPv6 the model proves that the text is unambiguous and reads back, not that it matches Rust's text character for character. IPv4 text matches.
- Ips.CalculateAllIps: returns the addresses as a sequence, not as a lazy boxed iterator. So the model does not capture that `--danger-zone` on a large IPv6 block streams output indefinitely rather than building it.
- Output.Run: returns what is written to standard output and standard error as strings. Writing, flushing, interleaving the two streams, and a failed write (`println!` panics) are left out, as is the process exit status.
- Concurrency, clocks and randomness do not occur in the core.
