# Inventory cleaner: a Dafny model of `run.py`

`run.py` cleans a network inventory exported as CSV. Each row holds an IP address,
a hostname and FQDN, a MAC address, a free-text owner, a device type, a site and
notes. Every column goes through a normalizer, and each normalizer returns:

- canonical values;
- a validity flag that is "true", "false" or "" (no input);
- the step tokens it took;
- the data-quality issues it found.

`process` writes one cleaned record per row. For every row that has issues it
also writes an anomaly record, listing the issues and one recommended action per
affected field.

This project models the normalizers and the per-row assembly, and proves what
they promise.

| file | module | models |
|---|---|---|
| `text.dfy` | `Text` | the Python `str` operations the normalizers use: `strip`, `lower`, `upper`, `split`, `join`, `replace`, `capitalize`, `title`, `re.sub(r"\s+", " ", …)`, `str(int)` |
| `dedup.dfy` | `Dedup` | `uniq`: a specification function and the loop as a method |
| `records.dfy` | `Records` | the step vocabulary, issue records, the raw row, `CleanRecord` and the anomaly record |
| `ipv4.dfy` | `IPv4` | four-octet addresses; the strict text form of `ipaddress.IPv4Address`; `parse_ipv4_relaxed` (as a function and as the loop); `classify_ipv4_type`; the IPv4 branch of `default_subnet`; the reverse pointer of section 3.5 of RFC 1035 |
| `ip.dfy` | `IpNormalizer` | `normalize_ip`, with the IPv6 half of `ipaddress` as a parameter |
| `names.dfy` | `Names` | `HOST_LABEL_RE`, `valid_label`, `normalize_names` |
| `mac.dfy` | `Mac` | `normalize_mac` |
| `owner.dfy` | `Owner` | `EMAIL_RE` as a leftmost-longest backtracking matcher, the team pattern, `parse_owner` |
| `device.dfy` | `Device` | `normalize_device_type`, and its keyword rules as a priority table |
| `site.dfy` | `Site` | `normalize_site` and its alias table |
| `recommend.dfy` | `Recommend` | `recommendations_for`, as a function and as the loop |
| `pipeline.dfy` | `Pipeline` | the body of the row loop of `process` as `ProcessRow`, and the loop over the rows as the methods `CollectRows` and `Process` |
| `regression.dfy`, `regression_owner.dfy` | `Regression`, `OwnerRegression` | every case of `tests/test_run.py`, as lemmas that fix the input and prove the expected outputs |

Behaviours of the source that the proofs make explicit:

- **The relaxed parser drops leading zeros.** `parse_ipv4_relaxed` accepts exactly:
  - four '.'-separated segments;
  - each segment decimal digits, after at most one '+';
  - each value at most 255.

  It drops leading zeros, so "192.168.010.005" becomes 192.168.10.5. Whatever the
  strict parser accepts, it accepts with the same address.
- **The IPv6 library can never turn a text into an IPv4 result.** A text without ':' never
  reaches it, so every IPv4 result holds whatever the IPv6 library does.
- **The MAC check `fullmatch` at run.py:235 is always true.** The text it tests consists
  of hexadecimal digits only, so `mac_valid` is "true" exactly when twelve such digits remain.
- **The alias key "lab-1" (run.py:323) can never be looked up,** because the key is built
  after '-' has been replaced by a space.
- **A capitalised e-mail address stays in the owner's name.** The address is lower-cased
  before `replace` removes it, so when it was written with capitals (say "Bob@X.io")
  it is not found in the owner text.
- **A device type cell of whitespace only wins.** It is non-empty in Python, so it
  gives the type "" with confidence "high".
- **`source_row_id` becomes "" in the cleaned record when the cell is absent,** which is
  what the CSV writer writes for `None`. The anomaly record keeps the absent value.

## Model

| member | source | states |
|---|---|---|
| Dedup.Uniq | run.py:70-77 | the `seen`/`out` loop returns the de-duplicated list: no repetitions, no empty string, and an item is in it exactly when it is a non-empty item of the input |
| Dedup.DeduplicatedElements | run.py:70-77 | the kept items have no repetitions and are exactly the non-empty input items |
| Dedup.DeduplicatedOrder | run.py:73-76 | the kept items come from the input and appear in the order of their first occurrence in it |
| Dedup.DeduplicatedIdempotent | run.py:70-77 | de-duplicating a de-duplicated list changes nothing |
| Records.TokenShape | run.py:419 | no step token is empty or contains the '\|' that joins the tokens of a row |
| Records.TokenInjective | run.py:130-328 | two different steps never share a token text |
| IPv4.StrictOctet | run.py:151 | one octet of the strict IPv4 text form is accepted exactly when it is 1-3 ASCII digits, without a leading zero, worth at most 255; its value is the value of the digits |
| IPv4.FormatShape | run.py:162 | the text form of an address is digits and dots, and begins and ends with a digit |
| IPv4.ParseStrictFormat | run.py:150-151 | the text form of an address parses strictly back to the address |
| IPv4.FormatParseStrict | run.py:162 | a strictly accepted text is the text form of the address it denotes |
| IPv4.ParseIPv4Relaxed | run.py:107-127 | the loop of `parse_ipv4_relaxed`, with its early returns, returns the relaxed parse of the candidate |
| IPv4.RelaxedParseIff | run.py:107-127 | the relaxed parser accepts exactly four '.'-separated segments, each digits after at most one '+' and worth at most 255; the address's octets are the segments' values |
| IPv4.StrictImpliesRelaxed | run.py:150-156 | every text the strict parser accepts, the relaxed parser accepts as the same address |
| IPv4.RelaxedHasNoColon | run.py:107-116 | a text the relaxed parser accepts contains no ':' |
| IPv4.ClassifyByValue | run.py:80-88 | the classification matches the 32-bit ranges: 10/8, 172.16/12 and 192.168/16 are private (section 3 of RFC 1918); 169.254/16 is link-local; 127/8 is loopback |
| IPv4.DefaultSubnet4Meaning | run.py:91-101 | a private address gets the /24 network that contains it; link-local gets 169.254.0.0/16; loopback gets 127.0.0.0/8; every other address gets "" |
| IPv4.LastOctet | run.py:168 | the last octet read back from the text form is the address's fourth octet |
| IPv4.ReversePointer4Meaning | run.py:370 | the IPv4 reverse pointer is d.c.b.a.in-addr.arpa for the address a.b.c.d |
| IpNormalizer.ParseIPv6 | run.py:151 | the IPv6 parser returns an address only for a text that contains ':' |
| IpNormalizer.IpAddress | run.py:151 | `ip_address` returns the strict IPv4 address whenever there is one; a text without ':' that is not strict IPv4 is rejected; an IPv6 result comes only from a text with ':' |
| IpNormalizer.Candidate | run.py:145-147 | the candidate handed to `ip_address` contains no '%' |
| IpNormalizer.ParsedIpShape | run.py:150-173 | after the placeholder test, the result is valid exactly when one of the two parsers accepted; valid results carry at most a `reserved_edge` issue; invalid ones keep the trimmed text, have empty version and subnet, end with `ip_invalid_parse` and carry one `invalid` issue with the library's message |
| IpNormalizer.AcceptedV4 | run.py:162-173 | an accepted IPv4 address gives its text form, "true", "4", its default subnet, and the `reserved_edge` issue and step exactly for a private address ending in 0 or 255 |
| IpNormalizer.ParsedIpV4 | run.py:150-173 | an IPv4 address from either parser comes out as that address; `ip_parse_relaxed` appears exactly when the strict parser failed; `ip_drop_zone` appears exactly when a zone was dropped |
| IpNormalizer.NormalizeIpValid | run.py:130-173 | `ip_valid` is "true" or "false"; it is "true" exactly when the cell is present, its trimmed text is no placeholder, and the candidate parses; a valid result carries at most the `reserved_edge` issue |
| IpNormalizer.NormalizeIpFailure | run.py:133-160 | the three failure shapes: an absent cell gives value "", the single step `ip_missing` and a `missing` issue, and is the only result without `ip_trim`; a placeholder gives the trimmed text and a `missing` issue; an unparseable text gives the trimmed text, `ip_invalid_parse` and one `invalid` issue with the library's message. Every failure has empty version and subnet and exactly one issue |
| IpNormalizer.NormalizeIpVersion4 | run.py:150-164 | the version is "4" exactly when the relaxed parser accepts the candidate, whatever the IPv6 library does |
| IpNormalizer.NormalizeIpAccepted4 | run.py:138-173 | a text the relaxed parser accepts gives, for any IPv6 library: that address's text form, "true", "4" and its default subnet; `ip_parse_relaxed` exactly when the strict form failed; `ip_drop_zone` exactly when there was a '%'; the `reserved_edge` issue exactly for a private address ending in 0 or 255 |
| IpNormalizer.NormalizeIpAccepted6 | run.py:145-173 | a candidate the library parses as IPv6 gives its compressed form, "6", the /64 network exactly when it is link-local, no issue, and the steps trim, optional zone drop, parse, normalize |
| IpNormalizer.FormatIsCanonicalInput | run.py:138-151 | the text form of an address is trimmed, no placeholder, free of '%' and ':', and strictly parsed |
| IpNormalizer.NormalizeIpIdempotent4 | run.py:130-173 | normalizing an IPv4 result's `ip` again gives the same ip, validity, version, subnet and issue kinds, through the strict parser and without a zone |
| IpNormalizer.ReversePointerOf | run.py:367-373 | re-parsing the text form of an IPv4 address gives its d.c.b.a.in-addr.arpa pointer |
| Names.ValidLabelChars | run.py:20 | a label `HOST_LABEL_RE` accepts is non-empty and starts with a letter or digit; it has no '.'; without the final newline that `$` tolerates, it is trimmed and made of letters, digits and '-' |
| Names.TrimOrEmpty | run.py:183-184 | the trimmed cell has no whitespace at either end |
| Names.EmptyIsNoFqdn | run.py:202-203 | the empty FQDN is not valid |
| Names.HostnameValidIff | run.py:185-212 | `hostname_valid` is one of the three values; it is "" exactly when there is no hostname, and "true" exactly when the hostname is a valid label |
| Names.FqdnConsistentIff | run.py:214-220 | `fqdn_consistent` is one of the three values; it is "" exactly when the hostname or the FQDN is empty, and "true" exactly when the FQDN is valid and its first label is the hostname |
| Names.HostnameSource | run.py:183-212 | the FQDN is the lower-cased trimmed cell; a given hostname is lower-cased; the hostname comes from the FQDN (`hostname_from_fqdn`) exactly when none was given and the FQDN is valid, and is then the first label, valid and consistent |
| Names.NamesIssues | run.py:193-218 | `invalid_label` appears exactly when `hostname_valid` is "false"; `invalid_format` exactly for a non-blank invalid FQDN; `hostname_mismatch` exactly when a valid FQDN's first label differs from the hostname. Each issue quotes its raw cell; there are at most two and no others |
| Names.NamesFromTrimmedIdempotent | run.py:180-222 | from trimmed cells, the outputs are trimmed, and normalizing them again changes neither them nor the two flags |
| Names.NamesIdempotent | run.py:180-222 | normalizing the normalized hostname and FQDN again changes neither them nor the two flags |
| Names.TrimmedCells | run.py:183-184 | trimmed cells reach the comparison unchanged |
| Mac.HexOnlyDigits | run.py:234 | what remains after deleting the non-hex characters is hexadecimal digits only |
| Mac.HexOnlyOfLower | run.py:234-237 | deleting the non-hex characters and lower-casing commute |
| Mac.HexOnlyOfMacText | run.py:237 | the hex digits of a MAC text are the lower-cased twelve digits it was made of |
| Mac.MacTextShape | run.py:237 | the MAC text is 17 characters: ':' at positions 2, 5, 8, 11 and 14, and elsewhere the twelve digits in order, lower-cased |
| Mac.MacTextOfLower | run.py:237 | digit strings that differ only in case give the same MAC text |
| Mac.MacValidIff | run.py:225-241 | `mac_valid` is one of the three values; "" exactly for an absent or blank cell (step `mac_missing`, no issue); "true" exactly when twelve hex digits remain; "false" otherwise, with the trimmed cell and one `invalid_mac` issue quoting the raw cell |
| Mac.MacOutputShape | run.py:232-238 | a valid MAC is 17 characters: ':' at positions 2, 5, 8, 11 and 14, lower-case hex digits elsewhere; its digits are the cell's digits in order, lower-cased |
| Mac.MacIdempotent | run.py:225-241 | normalizing a valid MAC again returns it unchanged, valid, with no issue |
| Owner.RunEnd | run.py:19 | a character-class run ends exactly at the first character outside the class |
| Owner.LastTldDot | run.py:19 | finds the last dot in range that two letters follow, or reports that there is none |
| Owner.EmailAtSound | run.py:19 | what the matcher finds at a position is an e-mail address in the sense of `EMAIL_RE` |
| Owner.EmailAtComplete | run.py:19 | every e-mail address that starts at a position ends no later than the one the matcher finds |
| Owner.FirstEmail | run.py:253 | the search returns the first position where the matcher succeeds, and its end, or reports that it succeeds nowhere |
| Owner.FirstEmailFound | run.py:253-254 | the address found is the leftmost e-mail address of the text, and the longest of those starting there |
| Owner.FirstEmailNone | run.py:253-254 | when the search finds nothing the text holds no e-mail address |
| Owner.EmailOfSpec | run.py:253-254 | the e-mail is "" exactly when the text holds no address; otherwise it is the leftmost-longest address, lower-cased |
| Owner.ParenAt | run.py:260 | a group found at a position is '(' then at least one character other than ')' then ')' |
| Owner.ParenAtComplete | run.py:260 | every such group is found |
| Owner.FirstParen | run.py:260 | `re.search` returns the leftmost group |
| Owner.RemoveParensKeeps | run.py:264 | `re.sub` only deletes characters |
| Owner.RemoveParensRemovesAll | run.py:264 | after `re.sub` a second search finds no group |
| Owner.RemoveParensWithoutGroup | run.py:264 | a text without a group is left unchanged |
| Owner.NameTextHasNoGroup | run.py:257-266 | the name is never taken from text that still holds a group |
| Owner.CapitalizeWordsSpec | run.py:274 | the words of the result are the capitalised words of the name, joined by single spaces; the result is trimmed, and is "" exactly when the name has no words |
| Owner.LocalPartNameShape | run.py:268 | a name made from the local part holds no '@', '.' or '_' |
| Owner.ParseOwnerBlank | run.py:244-252 | an absent or blank cell gives four empty values and no steps; every other cell starts with `owner_trim` |
| Owner.OwnerSteps | run.py:252-269 | the steps start with `owner_trim`; `owner_email_extract` appears exactly when an address was found, `owner_team_paren` exactly when a group was, `owner_from_email_localpart` exactly when the name fell back to the local part |
| Owner.OwnerNameSpec | run.py:259-276 | the name comes, in order of preference, from the text left over (capitalised per word), from the e-mail's local part, or is ""; the team is the title-cased first group |
| Owner.OwnerOfSpec | run.py:266-276 | the same, once the e-mail, the leftover text and the team are known, including the early return for a team-only cell |
| Owner.CapitalisedEmailStays | run.py:254-257 | when the lower-cased address does not occur in the text, as for an address written with capitals, nothing is removed |
| Device.FirstFiring | run.py:287-296 | the result is "" exactly when no rule fires; otherwise it is the category of the first rule that fires |
| Device.InferIsFirstFiring | run.py:287-296 | the `if`/`elif` chain is the first firing rule of the table printer > switch > router (router, gateway, gw) > iot (cam, iot) > server (srv, server, db) |
| Device.DeviceTypeSpec | run.py:279-302 | a non-empty cell wins: trimmed and lower-cased, "high", `device_from_input`. Otherwise the type is the first firing rule's category on `hostname + " " + notes`: "medium" with `device_inferred` exactly when a rule fires, nothing at all when none does |
| Site.SiteKeyShape | run.py:314-315 | the lookup key has no '-', no upper-case letter, no whitespace at the ends, and single plain spaces only; so it is never "lab-1" |
| Site.SiteKeyOfUpper | run.py:314-326 | the key of an upper-cased key is that key |
| Site.AliasValues | run.py:316-325 | every alias value is the upper-cased form of its own well-spaced key |
| Site.NormalizeSiteShape | run.py:305-328 | the site column is the trimmed cell; the normalized value is "" with no steps exactly for an absent, blank, "n/a" or "na" cell, and otherwise the alias of the key or the key upper-cased (steps `site_trim`, `site_normalize`); it never has '-', whitespace at the ends or two whitespace characters in a row |
| Site.LabHyphenUnreachable | run.py:323 | no cell's key is "lab-1" |
| Site.NormalizeSiteIdempotent | run.py:305-328 | normalizing a normalized value again gives it back, unless it is empty or reads as a placeholder |
| Recommend.Mapped | run.py:339-343 | the list before `uniq` has at most one entry per issue, each from the action table |
| Recommend.RecommendationsFor | run.py:331-344 | the loop followed by `uniq` returns the specified recommendations |
| Recommend.ActionsTable | run.py:332-338 | the table has five fields with five different non-empty actions |
| Recommend.MappedIff | run.py:340-343 | an action is in the mapped list exactly when some issue has its field |
| Recommend.RecommendationsSpec | run.py:331-344 | the recommendations have no repetitions, number at most five, and all come from the table; an action appears exactly when some issue has its field; they follow the order in which they are first called for |
| Pipeline.CollectRows | run.py:353-421 | the row loop produces one record per row, and the anomaly records of the rows that have one, in row order |
| Pipeline.Process | run.py:347-424 | `process` over a list of rows returns the records and anomaly records of the rows processed one by one |
| Pipeline.StepsColumnSpec | run.py:419 | the steps column splits back on '\|' into the row's distinct step tokens, each once, in first-occurrence order; it is empty only for a row without steps |
| Pipeline.AssembleAnomaly | run.py:390-397 | a row has an anomaly record exactly when it has issues; the record carries the row id, all its issues in order, and their recommendations |
| Pipeline.IpIssueFields | run.py:130-173 | every issue of the IP normalizer is about the field "ip" |
| Pipeline.NamesIssueFields | run.py:180-222 | every issue of the name normalizer is about "hostname" or "fqdn" |
| Pipeline.MacIssueFields | run.py:225-241 | every issue of the MAC normalizer is about "mac" |
| Pipeline.RowIssueFields | run.py:357-377 | every issue of a row is about a field of the action table |
| Pipeline.AnomalyRecommends | run.py:390-397 | every anomaly record has issues and one to five recommendations, one for each field with an issue |
| Pipeline.ReversePointerColumn | run.py:367-373 | the reverse pointer is "" with no step unless the IP is valid; a valid IPv4 address always gets d.c.b.a.in-addr.arpa and `reverse_ptr_build` |
| Pipeline.ReverseOfNormalized | run.py:367-373 | the same, stated for the result of `normalize_ip` |
| Pipeline.ValidityColumns | run.py:399-410 | the columns `ip_valid`, `hostname_valid`, `fqdn_consistent` and `mac_valid` each hold "true", "false" or "" |
| Pipeline.AnomaliesOfSpec | run.py:390-397 | the anomaly list holds the anomaly record of every row that has one, and nothing else; it is as long as the row list exactly when every row has one |
| Pipeline.AnomaliesHaveIssues | run.py:390-397 | every collected anomaly record lists at least one issue |
| Regression.RelaxedLeadingZeros | tests/test_run.py:8-15 | "192.168.010.005" gives 192.168.10.5, valid, version 4, subnet 192.168.10.0/24, `ip_parse_relaxed`, and no issue |
| Regression.ZoneIdDropped | tests/test_run.py:17-24 | "fe80::1%eth0" loses its zone and gives the library's address for "fe80::1", version 6, its /64 network, `ip_drop_zone`, and no issue |
| Regression.InvalidOctet | tests/test_run.py:26-33 | "10.0.1.300" is kept, invalid, with empty version and subnet, `ip_invalid_parse`, and exactly one `invalid` issue |
| Regression.CanonicalAccepted | run.py:138-173 | the text form of an address goes through the strict parser alone |
| Regression.ReservedEdgeFlagged | tests/test_run.py:35-39 | "192.168.1.255" is valid, with `ip_reserved_edge` and exactly one `reserved_edge` issue |
| Regression.DefaultSubnetPrivate | tests/test_run.py:92 | 10.0.0.5 has the default subnet 10.0.0.0/24 |
| Regression.DefaultSubnetLinkLocal | tests/test_run.py:93 | 169.254.1.1 has the default subnet 169.254.0.0/16 |
| Regression.HostnameFromFqdnExample | tests/test_run.py:41-48 | no hostname with FQDN "srv-1.example.com" gives the hostname "srv-1", valid and consistent, with `hostname_from_fqdn` and no issue |
| Regression.BadHostnameExample | tests/test_run.py:50-53 | "bad_host" is kept, invalid, with exactly one `invalid_label` issue |
| Regression.DashedMacExample | tests/test_run.py:55-60 | "AA-BB-CC-DD-EE-FF" gives "aa:bb:cc:dd:ee:ff", valid, with `mac_normalize` and no issue |
| Regression.ShortMacExample | tests/test_run.py:62-64 | "AABBCC" is kept, invalid, with exactly one `invalid_mac` issue |
| OwnerRegression.OwnerWithTeamAndEmail | tests/test_run.py:66-72 | "priya (platform) priya@corp.example.com" gives the name "Priya", the address "priya@corp.example.com" and the team "Platform", with `owner_email_extract` and `owner_team_paren` |
| OwnerRegression.CapitalisedEmailExample | run.py:253-254 | "Bob@X.io" yields the address "bob@x.io" |
| OwnerRegression.CapitalisedEmailAbsent | run.py:257 | "bob@x.io" does not occur in "Bob@X.io" |
| Regression.GatewayInferred | tests/test_run.py:74-78 | no device type with hostname "edge-gw" and notes "edge gw" gives "router", "medium", `device_inferred` |
| Regression.GivenDeviceType | tests/test_run.py:80-83 | the device type "server" gives "server", "high", `device_from_input` |
| Regression.BuildingAlias | tests/test_run.py:85-89 | "HQ-BUILDING-1" is kept as the site and normalizes to "HQ BLDG 1" with `site_normalize` |
| Text.CollapseOfCollapsed | run.py:315 | collapsing whitespace in a text with only single plain spaces changes nothing |
| Text.StripIdempotent | run.py:138 | trimming twice is trimming once |

## Left out

- The file shell of `process` and `main` (run.py:347-353, 421-440): the CSV reader and writer, `json.dump`, the paths and `print`. `Process` takes the rows as a list of `RawRow` values and returns the records and the anomaly records as lists.
- `@dataclass` and `asdict` (run.py:46-67): `CleanRecord` is a datatype with the 20 columns in `FIELDNAMES` order.
- `str(ip_str)`, `str(mac_raw)` and the like: every cell is a string, or `None` for an absent cell.
- IPv6 parsing, the compressed form, `is_link_local`, the /64 network and the IPv6 reverse pointer (run.py:102-103, 151, 162, 370): these come from Python's `ipaddress` library. They are the parameter `IPv6Library`. As the library does, the model rejects a text with fewer than three ':'-separated parts before consulting it. The exception text in an `invalid` issue's `detail` (run.py:159) is the parameter's `errorText`.
- IpNormalizer.NormalizeIpIdempotent4: idempotence is proved for IPv4 results only, because for IPv6 it depends on the library.
- Regression.ZoneIdDropped: the IPv6 expectations of tests/test_run.py:17-24 are proved for any library that gives "fe80::1" the compressed form "fe80::1", calls it link-local and puts it in "fe80::/64"; that is the library's behaviour, not something `run.py` decides.
- Unicode: `lower`, `upper`, `capitalize`, `title`, `isdigit`, `int` and `\s` are modelled for ASCII text. Cells with other characters are covered only in so far as those characters are passed through unchanged.
- run.py writes the patterns at lines 19, 260, 264 and 315 as raw strings with doubled backslashes. In Python each `\\` in such a pattern matches one literal backslash. Read literally, run.py therefore finds no e-mail address and no team in the usual owner text, which has no backslashes, and it never collapses whitespace in site keys. The model departs from the program text here: it reads each doubled backslash as a single escape, that is a literal '.', '(' or ')', and whitespace for `\s`. That is the meaning tests/test_run.py:66-72 expects, where the owner text yields a name, an address and a team.
- Names.ValidLabel follows Python's `$`, which also matches before one final newline, so a label followed by '\n' is accepted.
- Names.NamesIdempotent: requires the resulting hostname to contain no newline. A first FQDN label that ends in the newline `$` tolerates would be trimmed away on a second pass.
- Site.NormalizeSiteIdempotent: requires the normalized value not to be "" or read as "n/a" or "na". A cell "-na" normalizes to "NA", which a second pass treats as a placeholder.
