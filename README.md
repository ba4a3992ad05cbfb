# flowdot, modelled in Dafny

flowdot logs into a list of hosts over `ssh` and reads three listings on each one:
- `ip --brief address show` for the interfaces;
- `ss -tulpn` for the listening sockets;
- `ss -tuapn` for the established connections.

It drops what the user's `--excludes` rules filter out, keeps only hosts inside the `--networks` address ranges, and draws the result as a Graphviz digraph.

This project models the core of that pipeline and proves properties of the model:

- **`src/exclude.rs` → `exclude.dfy`, module `Exclude`.** The exclusion-rule engine.
  - The rule pattern is a deterministic scan of each comma-separated token into host, `%device`, `:port` and `/protocol`.
  - A round trip is proved: capturing the spelling of any well-formed rule gives the rule back.
  - The host, device and socket checks are loops over the tokens. They are proved equal to existential predicates.
  - The connection check is the conjunction of the socket checks of its two endpoints.
  - The socket check keeps its three overlapping clauses exactly as written.
- **`src/network.rs` → `network.dfy`, module `Network`.**
  - The hostname validator.
  - The network-membership search over comma tokens × resolved addresses.
  - DNS and the CIDR library are a `Resolver` record of functions.
- **`src/cli.rs` → `cli.dfy`, module `Cli`.** The parsers of the three listings.
  - Each listing is given as its sequence of lines.
  - `extract_proc_name` and `extract_addr_and_port` are the leftmost-first, greedy matches of their patterns.
  - Each line loop is a method proved equal to a `Collect` over the lines. Lemmas characterise that `Collect`.
- **`src/model.rs` → `model.dfy`, module `Topology`.**
  - The `Model` is a class with `machines` and `connections` fields.
  - `add_machine` is a method proved against a step function on the model's contents.
  - Its invariant, that host names are unique, is proved to hold for every step and for a whole crawl.
  - The remote commands are an `Acquisition` record of functions.
- **`src/graph.rs` → `graph.dfy`, module `Graph`.**
  - `ip_only` is modelled as four regex deletions, and `sanitiza_label` as a character filter.
  - The graph builder is modelled as methods that emit clusters, record and circle nodes, and edges as lists.
- **`text.dfy`, module `Text`.** The character classes and the Rust `str` operations the tool uses: `split` on a character, `split_whitespace` and `contains`.
- **`model_types.dfy`, module `ModelTypes`.** The records of `src/model.rs`.

Where the tool's own description and its code differ, the model follows the code:
- `add_machine` never crawls on to the remote ends of the connections. `Vec::append` at `src/model.rs:73` empties the vector that the loop at `:76-78` then walks, so one call adds at most one machine.
- `ip_only` is not idempotent. `Graph.IpOnlyNotIdempotent` exhibits `a:1:2 → a:1 → a`.
- The usage text of `src/main.rs` advertises `#process` rules, port ranges, `host123/udp` and `localhost%lo:22/tcp`. None of them excludes what the text says:
  - `#autossh` captures nothing;
  - `:22-25` captures port `22` only;
  - `host123/udp` is captured as host plus protocol, but the socket clauses of `src/exclude.rs:94-105` let a host-and-protocol rule exclude no socket that has a port (`Exclude.HostProtocolRulesSpareSockets`);
  - `localhost%lo:22/tcp` captures all four fields, and then no host, device or socket clause fires (`Exclude.FullRuleExcludesNothing`).
- A wildcard bind draws its edges (`src/graph.rs:71-78`) to the raw host name followed by the sanitised interface name and `:"port"`. The record they aim at is named with the sanitised host name (`src/graph.rs:38-39`).
  - The edge reaches the record's port when the host name is already a clean label and no name holds what `ip_only` cuts (`Graph.FanTargetHitsRecord`).
  - A host name with a `-` misses it: host `web-1` gets edges to `web-1eth0`, while its record is `web1eth0` (`Graph.FanTargetMissesDashedHost`, `Graph.DashedHostExample`).

## Model

| member | source | states |
|---|---|---|
| Text.Fields | src/cli.rs:36 | `split_whitespace` yields non-empty fields without whitespace |
| Text.FieldsSkipWhitespace | src/cli.rs:36 | a leading run of whitespace of any length and kind yields no field |
| Text.FieldsTakeField | src/cli.rs:36 | a non-empty run without whitespace, followed by the end or by whitespace, is the next field |
| Text.FieldsOfPadded | src/cli.rs:36 | whitespace, a field, then whitespace or the end: that field comes first, followed by the fields of the rest |
| Text.FieldsOfJoin | src/cli.rs:36 | the fields of a single-space join of fields are those fields |
| Text.SplitPieces | src/exclude.rs:22 | the comma pieces hold no comma and join back to the rule string |
| Text.SplitJoin | src/exclude.rs:22 | splitting joined comma-free pieces gives the pieces back |
| Text.SplitAppend | src/network.rs:40 | splitting `a,b` is splitting `a` followed by splitting `b` |
| Exclude.HostLengthIsLongest | src/exclude.rs:8 | the captured host is the longest prefix that is a host (alphanumeric ends, `.`/`-` inside, length ≥ 2) |
| Exclude.Host123IsHost | src/exclude.rs:8 | `host123` is a host |
| Exclude.GroupEndCaptures | src/exclude.rs:9-11 | an optional group takes part exactly when its lead and one class character come first, and then takes the greedy bounded run |
| Exclude.ParseRule | src/exclude.rs:6-16 | every capture is well formed: a host, a non-empty `[a-z0-9]` device and protocol, a port of one to five digits |
| Exclude.ParseRuleSpellsPrefix | src/exclude.rs:6-16 | a capture, spelled back `[host][%device][:port][/protocol]`, is a prefix of its token |
| Exclude.ParseRender | src/exclude.rs:6-16 | capturing the spelling of any well-formed rule gives the rule back |
| Exclude.DeviceCaptureExample | src/exclude.rs:6-16 | `%lo` sets only device `lo` |
| Exclude.PortProtocolCaptureExample | src/exclude.rs:6-16 | `:53/udp` sets only port `53` and protocol `udp` |
| Exclude.HostDeviceCaptureExample | src/exclude.rs:6-16 | `host123%eth0` sets host and device only |
| Exclude.HostCaptureExample | src/exclude.rs:6-16 | `host123` sets only the host |
| Exclude.EmptyCaptureExamples | src/exclude.rs:6-16 | `#autossh` and `a` set no field |
| Exclude.PortRangeCaptureExample | src/exclude.rs:6-16 | `:22-25` sets only port `22` |
| Exclude.FullCaptureExample | src/exclude.rs:6-16 | `localhost%lo:22/tcp` sets all four fields |
| Exclude.SingleRule | src/exclude.rs:22 | a rule string without a comma is one token |
| Exclude.IsHostExcluded | src/exclude.rs:19-40 | true exactly when some token captures only a host, equal to `host`; false without rules |
| Exclude.IsDeviceExcluded | src/exclude.rs:42-65 | true exactly when some token has a device equal to `device`, no port or protocol, and an unset or equal host |
| Exclude.IsSocketExcluded | src/exclude.rs:67-122 | true exactly when some token satisfies one of the three clauses, unset fields read as "" |
| Exclude.IsConnectionExcluded | src/exclude.rs:124-149 | true exactly when both endpoint sockets are excluded |
| Exclude.NoRulesExcludeNothing | src/exclude.rs:19-135 | without a rule string no host, device, socket or connection is excluded |
| Exclude.HostExclusionExample | src/exclude.rs:22-33 | `host123` excludes host `host123` |
| Exclude.HostDeviceRuleSparesHost | src/exclude.rs:22-33 | `host123%eth0` does not exclude host `host123` |
| Exclude.DeviceExclusionExample | src/exclude.rs:45-58 | `%lo` excludes device `lo` on every host |
| Exclude.SocketExclusionExample | src/exclude.rs:98-105 | `:53/udp` excludes `(h, 10.0.0.1, 53, udp)` and not the same socket on port 54 |
| Exclude.DeviceRulesSpareSockets | src/exclude.rs:94-105 | no socket clause fires for a rule with a device |
| Exclude.HostOnlyRuleExcludesAllSockets | src/exclude.rs:94-97 | a host-only rule naming the host or the bound address excludes every socket |
| Exclude.ProtocolOnlyRulesSpareSockets | src/exclude.rs:94-105 | a rule with neither host, device nor port (`/udp`, or no field) excludes no socket whose four values are non-empty |
| Exclude.HostProtocolRulesSpareSockets | src/exclude.rs:94-105 | a host-and-protocol rule excludes no socket with a port |
| Exclude.FullRuleExcludesNothing | src/exclude.rs:19-122 | `localhost%lo:22/tcp` excludes no host, no device and no socket |
| Exclude.PortRuleOverreachesOnEmptyProtocol | src/exclude.rs:102-105 | `:22` excludes a port-80 socket whose protocol is empty |
| Exclude.ConnectionExclusionSymmetric | src/exclude.rs:134-135 | swapping the local and remote endpoints does not change the verdict |
| Network.IsValidHostname | src/network.rs:5-20 | valid exactly when non-empty, all `[a-zA-Z0-9.-]`, and neither end is `-` or `.` |
| Network.EmptyIsNoHostname | src/network.rs:19 | the empty string is not a hostname |
| Network.ColonIsNoHostname | src/network.rs:6-14 | any text containing `:` fails the hostname test |
| Network.DottedQuadGoesToDns | src/network.rs:22-26 | every dotted quad of decimal numbers passes the hostname test, so its addresses are what DNS returns for it |
| Network.DottedQuadExample | src/network.rs:22-26 | `10.0.0.1` is sent to DNS |
| Network.ColonLiteralIsParsed | src/network.rs:22-34 | a literal with `:` never reaches DNS: it gives the address it parses to, or none |
| Network.IsHostInNetwork | src/network.rs:36-58 | true exactly when some token parses as a network that includes some resolved address |
| Network.NoAddressesNoNetwork | src/network.rs:38-52 | a host without addresses is in no network |
| Network.UnparsableTokensSkipped | src/network.rs:40-55 | appending tokens that do not parse as networks changes nothing |
| Cli.ExtractProcName | src/cli.rs:50-61 | the name is made of word characters only |
| Cli.ProcNameIsFirstQuotedWord | src/cli.rs:50-61 | the name is the word of the leftmost `"word"`, and "" exactly when there is none |
| Cli.QuotedWordIsName | src/cli.rs:52-59 | the first quoted word after a quote-free prefix is the name |
| Cli.ProcNameExample | src/cli.rs:50-61 | `users:(("sshd",pid=1,fd=3))` names `sshd` |
| Cli.ExtractAddrAndPort | src/cli.rs:63-75 | on a one-line endpoint the out-parameters are either unchanged, or an address that is a proper prefix of the endpoint and a port of one to five characters |
| Cli.OneLineMatch | src/cli.rs:65-67 | on one line the leftmost match of `(.+):(\d{1,5})` exists exactly when there is a `:digit` after the first character, and splits at the last one |
| Cli.AddrAndPortSplitsAtLastColonDigit | src/cli.rs:63-75 | with no `:digit` the out-parameters are unchanged; otherwise the address is everything before the last `:digit`, and the port is the 1–5 digits after it, as many as there are |
| Cli.FieldsAreOneLine | src/cli.rs:92-95 | every whitespace field is newline-free, so the lemma above applies to endpoint fields |
| Cli.AddrAndPortExampleV4 | src/cli.rs:63-75 | `0.0.0.0:80` gives `("0.0.0.0", "80")` |
| Cli.AddrAndPortExampleV6 | src/cli.rs:63-75 | `[::]:22` gives `("[::]", "22")` |
| Cli.AddrAndPortExampleWildcard | src/cli.rs:63-75 | `*:*` leaves both out-parameters unchanged |
| Cli.CollectMembers | src/cli.rs:28-46 | a value is collected exactly when some line yields it, and there are no more values than lines |
| Cli.CollectAppend | src/cli.rs:28-46 | collecting two blocks of lines collects each in turn |
| Cli.ReadInterfaceFields | src/cli.rs:36-42 | field 0 is the name, field 1 is skipped, and fields 2.. are the addresses in order |
| Cli.GetInterfaces | src/cli.rs:28-46 | the loop yields, in line order, the interface of each line whose device is not excluded |
| Cli.InterfaceOfLine | src/cli.rs:36-42 | a line of fields `name state a1 … an` gives `Interface(name, [a1 … an])` |
| Cli.InterfacesSpec | src/cli.rs:28-46 | an interface is listed exactly when some line describes it and its device is not excluded; order is kept |
| Cli.ReadListenFields | src/cli.rs:92-99 | the protocol is field 0, the endpoint is field 4 and the process name is field 6 |
| Cli.GetProcesses | src/cli.rs:83-114 | the loop yields, in line order, the process of each `LISTEN`/`UNCONN` line whose socket is not excluded |
| Cli.ProcessesSpec | src/cli.rs:87-111 | a process is listed exactly when a listening line yields it; each has exactly one address; there are no more processes than lines; order is kept |
| Cli.ListenerSpec | src/cli.rs:100-111 | a listening line yields nothing exactly when its socket is excluded, and otherwise yields the process with address `bindaddr:port/protocol` |
| Cli.ReadEstablishedFields | src/cli.rs:134-144 | the protocol is field 0, the local endpoint is field 4, the remote endpoint is field 5 and the name is field 6 |
| Cli.GetConnections | src/cli.rs:123-166 | the loop yields, in line order, the connection of each `ESTAB` line that is not excluded (tested with the endpoints swapped) |
| Cli.ConnectionsSpec | src/cli.rs:127-163 | a connection is listed exactly when an `ESTAB` line describes it and its endpoints, in their natural order, are not both excluded; each is on the queried host; order is kept |
| Topology.Model.constructor | src/model.rs:45-50 | a new model has no machines and no connections |
| Topology.Model.IsKnown | src/model.rs:59-63 | true exactly when a machine with that hostname is recorded |
| Topology.AddMachineStep | src/model.rs:51-79 | a step keeps every machine and connection, adds at most one machine (the host's, under its resolved name), appends the host's connections in order with it, and otherwise changes nothing |
| Topology.Model.AddMachine | src/model.rs:51-79 | the new contents are the crawl step applied to the old; unique hostnames stay unique |
| Topology.UniqueAfterNewName | src/model.rs:59-70 | appending a machine with a new name keeps names unique |
| Topology.StepChangesIff | src/model.rs:51-63 | a step changes the model exactly when both gates pass and the name is new |
| Topology.RejectedHostAcquiresNothing | src/model.rs:52-54 | a host that is outside the networks or excluded leaves the model unchanged, whatever the remote commands would print |
| Topology.StepKeepsHostnamesUnique | src/model.rs:59-70 | every step keeps hostnames unique |
| Topology.StepIdempotent | src/model.rs:59-63 | a second identical step changes nothing; after an admitted step the name is recorded, exactly once if names were unique |
| Topology.Crawl | src/main.rs:128-130 | crawling a host list keeps every machine and connection and adds at most one machine per host |
| Topology.CrawlKeepsHostnamesUnique | src/main.rs:128-130 | crawling any host list keeps hostnames unique |
| Graph.StripWordSuffixSpec | src/graph.rs:8-13 | the text is cut just before the `/` where `/\w+$` matches, and kept whole when it matches nowhere |
| Graph.StripPortSuffixSpec | src/graph.rs:9-14 | the text is cut just before the `:` where `:\d{1,5}$` matches, and kept whole when it matches nowhere |
| Graph.DeleteFirstSpec | src/graph.rs:10-18 | without a match nothing is deleted; otherwise exactly the leftmost match with its whole run is cut out |
| Graph.NoLeadNothingDeleted | src/graph.rs:15-18 | a text without the lead character is unchanged |
| Graph.DeleteFirstChars | src/graph.rs:15-18 | a deletion adds no character |
| Graph.IpOnly | src/graph.rs:6-20 | `ip_only` never lengthens its input, and returns a text without `/`, `:` or `%` unchanged |
| Graph.IpOnlyChars | src/graph.rs:6-20 | every character `ip_only` returns is one of its input's |
| Graph.IpOnlySocketExample | src/graph.rs:13-18 | `0.0.0.0:80/tcp` becomes `0.0.0.0` |
| Graph.IpOnlyPrefixExample | src/graph.rs:13-18 | `10.0.0.1/24` becomes `10.0.0.1` |
| Graph.IpOnlyNotIdempotent | src/graph.rs:9-14 | `a:1:2 → a:1 → a`: a second pass changes the result again |
| Graph.RemoveAllSpec | src/graph.rs:22 | every `c` is removed, nothing is added, and a text without `c` is kept |
| Graph.RemoveAllAppend | src/graph.rs:22 | removal goes character by character: a `c` is dropped, any other character is kept, and the pieces of a text are treated in order |
| Graph.ReplaceAllSpec | src/graph.rs:22 | position by position, a `c` becomes `d` and every other character stays where it is |
| Graph.Sanitize | src/graph.rs:21-24 | the label holds no `-`, `@` or `:`, is no longer than the input, and a text without them is kept |
| Graph.SanitizeChars | src/graph.rs:21-24 | the only character a label can hold that its input does not is `_` |
| Graph.SanitizeIdempotent | src/graph.rs:21-24 | sanitising a label again changes nothing |
| Graph.EmitInterface | src/graph.rs:38-48 | the record is named by the sanitised host and interface names, with a title field and one field per address |
| Graph.EmitAddressEdges | src/graph.rs:70-80 | an edge from the process to the port of each address of one interface, in order |
| Graph.EmitFanOut | src/graph.rs:67-81 | those edges for every interface, in order |
| Graph.EmitBinds | src/graph.rs:61-92 | the bind edges of a process: none for loopback, fan-out for wildcard, one placeholder edge otherwise |
| Graph.EmitProcess | src/graph.rs:50-92 | the circle of a process (`_unknown_` when unnamed) and its bind edges |
| Graph.EmitInterfaces | src/graph.rs:37-49 | one record per interface, in order |
| Graph.EmitProcesses | src/graph.rs:50-93 | one circle per process, in order, and all their bind edges |
| Graph.GenerateMachineNode | src/graph.rs:26-96 | the machine's cluster: its sanitised name, records before circles, and the bind edges |
| Graph.GenerateGraph | src/graph.rs:98-110 | the clusters of the machines, in model order |
| Graph.ClustersSpec | src/graph.rs:105-107 | one cluster per machine, in model order, labelled with the sanitised hostname |
| Graph.MachineClusterNodes | src/graph.rs:37-60 | a cluster has one record per interface, in order, followed by one circle per process, in order |
| Graph.InterfaceNodeFields | src/graph.rs:38-47 | a record is titled with the interface name, and has one field per address, in order, with port `sanitiza_label(ip_only(addr))` |
| Graph.ProcessNodeNaming | src/graph.rs:51-59 | a circle's caption is the process name, or `_unknown_` when that is empty, and its name is the hostname plus the caption |
| Graph.FanOutLength | src/graph.rs:67-81 | the fan-out draws one edge per interface address |
| Graph.FanOutTargets | src/graph.rs:70-79 | every fan-out edge goes from the process to the wildcard target of some address of some interface |
| Graph.FanTargetSpelled | src/graph.rs:71-78 | when no name holds what `ip_only` cuts, the wildcard target is the raw host name, the sanitised interface name and `:"port"` |
| Graph.FanTargetHitsRecord | src/graph.rs:38-78 | when moreover the host name is a clean label, the target is the address's port on the interface's record |
| Graph.FanTargetMissesDashedHost | src/graph.rs:38-78 | a host name with a `-` makes the target differ from the record's port: the record name is shorter |
| Graph.DashedHostExample | src/graph.rs:21-24 | `web-1` is sanitised to `web1` |
| Graph.BindEdgesKinds | src/graph.rs:61-92 | a loopback bind draws no edge; a wildcard bind draws one edge per interface address, and its `[::1]` test is never reached; any other bind draws one edge |
| Graph.BindsEdgesSource | src/graph.rs:61-92 | every bind edge starts at the process's circle |
| Graph.ProcessesEdgesSource | src/graph.rs:50-93 | every edge of a cluster starts at the circle of one of the machine's processes |
| Graph.EdgeSourcesAreCircles | src/graph.rs:50-93 | the source of every edge of a cluster is a circle node of that cluster |

## Left out

- Running `ssh`, decoding the output as UTF-8, and the `expect` panics of `src/cli.rs` are not modelled. The output of each command is a parameter: the `Acquisition` record, given as a sequence of lines.
- `str::lines` is not modelled. The lines are given already split, so a trailing `\r` is not stripped.
- `get_hostname` is a parameter of the `Acquisition` record. It returns the already trimmed name.
- DNS `lookup_host` and its `unwrap` panic are not modelled; the lookup is a total function of the `Resolver`.
- The `ipaddress` parse and `includes` are functions of the `Resolver` over the address text.
- Regex classes: `\d` and `\w` are modelled as their ASCII classes. Rust's are Unicode-aware, so non-ASCII digits and letters are treated differently.
- The hostname test looks at characters instead of UTF-8 bytes (`Network.HasInvalidByte`). This agrees with the source, because every byte of a non-ASCII character is outside the class.
- DOT output is not modelled:
  - the colours, shapes, rank directions and pretty-printing;
  - the byte buffer and its UTF-8 conversion.
  A record label is kept as its list of `<port> text` fields rather than the joined label string.
- DOT merges statements that name the same node. The model keeps every emitted node and edge statement. Nodes and edges are kept in two lists, each in emission order, so the source's interleaving of a process's circle with its edges (`src/graph.rs:50-93`) is not kept.
- `Model::generate` (`src/model.rs:80-88`) is not modelled: it writes the graph to a file or stdout.
- `src/main.rs` is not modelled beyond the host loop (`Topology.Crawl`): clap parsing, logging setup and the `model.json` serde round trip.
- `log::` calls and the `lazy_static` regex caches have no behavioural state and are left out.
- Cli.ExtractAddrAndPort: characterised only for endpoints without a newline. Every whitespace field is one (`Cli.FieldsAreOneLine`). The multi-line case is modelled by `FirstLineMatch`, but no lemma states it.
- Graph.FanOutTargets: states one direction only, that every edge goes to the wildcard target of some address. That every address gets an edge follows from `Graph.FanOutLength` and the step lemmas, but is not stated as a lemma.
- Loop structure: the nested loops of the source are each split into a helper method: the field loops of `src/cli.rs`, and the address loops of `src/graph.rs`. The order and the effect of every iteration are unchanged.
- `extract_addr_and_port` writes through two `&mut String` parameters. It is modelled as a function that returns the two new values, and the callers assign them.
