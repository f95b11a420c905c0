# IP blocklist pipeline

A Dafny model of the address-list pipeline of an IP blocklist maintainer.
The repository has two scripts: the configurable `main.py` and the older
`IP_Blocklist_Validator.py`, whose settings are hard-coded. Both turn an
input file of addresses into a sorted, commented blocklist in seven stages:

1. Deduplicate the trimmed input lines (`sorted(set(...))`).
2. Keep the lines whose text before the first `/` is an IP address.
3. Group /32 hosts by their first three octets. A group of at least
   `threshold` hosts becomes one `a.b.c.0/24` entry, unless an explicit
   subnet's network address has the same first three octets.
4. Reconcile with the previous output file. Entries that left the input are
   deleted. An entry already in the file keeps its comment. A new entry gets
   a registry comment made of the country, region and isp fields, and is
   dropped when the lookup fails. Added and removed entries are counted.
5. Sort by `(prefix length, network address)`. The sort is stable.
6. Render each entry as `entry # comment`, truncating long comments.
   Enforce the entry-count cap before writing and the byte-size cap after.
7. Read an output file back into an entry → comment dict.

Modules (one file each):

- `Wrappers`: `Option`.
- `Seqs`: the no-repeats predicate `Distinct`, shared by deduplication and
  grouping, and a few generic steps of sequence algebra used by the proofs.
- `PyStr`: the Python `str` behaviour the scripts rely on:
  - `split`, `strip`, `strip("# ")`
  - universal-newline reading and iteration over a file's lines
  - `<` on strings
  - UTF-8 size
- `Ipv4`: networks as `(addr, prefix)` with the host bits zeroed.
  `ip_network(..., strict=False)` is `ParseNetwork`, and `str(network)` is
  `ShowNetwork`.
- `Dedup`, `Validation`, `Grouping`, `CidrSort`: stages 1, 2, 3 and 5.
- `OrderedDict`: a Python dict as its insertion-ordered list of items.
- `Reconcile`: `fetch_whois_info` and the reconcile/count logic of `process_lists`.
- `OutputFile`: rendering, the write loop and the output-file loader, with
  their round trip.
- `MainScript`, `ValidatorScript`: the two scripts' `process_lists` and writers.

Files are modelled as texts:

- the input file is its decoded text;
- the output file is `None` when it does not exist, else `Some(text)`;
- the registry request is a function parameter `lookup`: the parsed
  response, or `None` when the request or its decoding raised.

`IP_Blocklist_Validator.py` repeats most of `main.py` function for
function, so one model serves both; the paragraph at the head of
"Model" lists its copies. It differs in four places:

- the threshold is the constant 10;
- the writer rejects at 131072 entries or more (`>=`, where `main.py` uses `>`);
- the limits are the constants 10485760 bytes and 63 characters;
- its `process_lists` (IP_Blocklist_Validator.py:212-229) returns only the
  writer's success flag: it computes no added entries and reports no counts.

Two behaviours of the grouping code are worth stating outright:

- An explicit subnet whose network address has a group's first three octets
  cancels only that group's aggregate. The group's /32 hosts stay in the
  output beside the subnet (`Grouping.SuppressedGroupKeepsHosts`).
- Only the first three octets of an explicit subnet's network address are
  compared with the group keys. So a /16 over a dense /24 that is not the
  /16's first /24 does not cancel that /24, and both end up in the output
  (`Grouping.WiderSubnetDoesNotSuppress`).

## Model

The older `IP_Blocklist_Validator.py` repeats `remove_duplicates` (line 87), `validate_ip_addresses` (96-101), the grouping and its collection loop (109-140, 114-123), the sort (146-150), `fetch_whois_info` (161-173), the deletion loop (224-226) and the output loader (70-78) unchanged; the member that models the `main.py` copy models both, and each has one row below.

| member | source | states |
|---|---|---|
| Dedup.RemoveDuplicates | main.py:177 | the result is strictly increasing under Python string order and has exactly the input's elements |
| Dedup.StrictlyIncreasingUnique | main.py:177 | two strictly increasing lists with the same elements are equal, so `sorted(set(x))` is determined by the set of `x` |
| Dedup.RemoveDuplicatesIdempotent | main.py:177 | deduplicating twice gives the same list as once |
| Dedup.StrictlyIncreasingDistinct | main.py:177 | the deduplicated list has no repeated element |
| PyStr.StrLtTotal | main.py:177 | Python's string `<` orders any two different strings, so the deduplicated order is total |
| PyStr.StrLtTransitive | main.py:177 | Python's string `<` is transitive |
| Validation.ValidateIpAddresses | main.py:194-199 | the loop's result is the accepted entries in input order, and an entry is in it iff it is in the input and its text before the first `/` is an address |
| Validation.AcceptedOnlyCounts | main.py:194-199 | each accepted string is kept as often as the input holds it; every other string is dropped |
| Validation.SuffixNotChecked | main.py:197 | `a.b.c.d/99` passes validation, yet does not parse as a network |
| Grouping.CollectEntries | main.py:218-230 | after the loop, `ip_dict[k]` holds exactly the /32 inputs with key `k`, in order and with repetitions; the other two sets hold the explicit subnets and the distinct hosts |
| Grouping.DropSuppressedKeys | main.py:232-235 | a key stays in `ip_dict` iff no explicit subnet's network address has that key; kept groups are unchanged |
| Grouping.AggregateGroups | main.py:237-241 | every group of at least `threshold` hosts yields `key.0/24`, and exactly the hosts of the other groups remain |
| Grouping.GroupIpsIntoSubnets | main.py:207-247 | the returned list has no duplicates, and its elements are the texts of the explicit subnets, the /24 of each aggregated group and the hosts of each other group |
| Grouping.GroupedValid | main.py:224 | every network in the result is valid, with its host bits zeroed |
| Grouping.DenseGroupAggregates | main.py:238-241 | a group of at least `threshold` hosts with no explicit subnet of its key gives its /24, and no other network with that key is in the result |
| Grouping.SparseGroupKeepsHosts | main.py:238-244 | a host whose group is below the threshold stays in the result; its /24 is there only if it was an explicit input |
| Grouping.SuppressedGroupKeepsHosts | main.py:232-244 | with an explicit subnet of the same key, the host and the subnet are both in the result; no /24 is added for that key |
| Grouping.WiderSubnetDoesNotSuppress | main.py:232-235 | a /16 that contains a dense /24 (other than its first /24) does not cancel that /24's aggregation; both are in the result |
| Grouping.GroupedMembers | main.py:243-244 | every explicit subnet is kept, and every result is an input network or the /24 of an aggregated group |
| Grouping.RepeatedHostCounts | main.py:225-227 | one more /32 of a key raises that key's count by one and leaves the other keys' counts unchanged, so repeated spellings count twice |
| Grouping.BareAndHostSpellings | main.py:221-224 | `a.b.c.d` and `a.b.c.d/32` are both accepted and denote the same /32 network |
| Grouping.ThreeHostsGroup | main.py:238-244 | three hosts of one /24 become its /24 at threshold 3 and stay three /32s at threshold 4 |
| Grouping.ThreeHostsAggregated | main.py:207-247 | the lines `1.2.3.1`, `1.2.3.2` and `1.2.3.3` group to `{"1.2.3.0/24"}` at threshold 3 |
| Grouping.ThreeHostsKept | main.py:207-247 | the same three lines group to their three `/32` texts at threshold 4 |
| Ipv4.ParseNetwork | main.py:224 | any network the parser produces is valid, and it is the address written before the `/` with its host bits zeroed for the prefix; without a `/` the prefix is 32 |
| Ipv4.ParseNormalizes | main.py:224 | any address written with any prefix length from 0 to 32 parses, to that address with its host bits zeroed (`strict=False`) |
| Ipv4.ParseHostNormalizes | main.py:224 | any address written without a prefix parses as its /32 |
| Ipv4.ParseShowNetwork | main.py:244 | the text of a valid network parses back to that network |
| Ipv4.ShowNetworkInjective | main.py:243-244 | different valid networks have different texts, so the result set has one text per network |
| Ipv4.KeyTextInjective | main.py:226 | different keys below 2^24 have different `a.b.c` texts, so grouping by the key number matches grouping by the text |
| Ipv4.AggregateText | main.py:240 | `f"{key}.0/24"` is the text of the /24 network at `256 * key` |
| Ipv4.NormalizeValid | main.py:224 | normalising a network that is already valid changes nothing |
| CidrSort.SortEntriesByCidr | main.py:261-265 | the result is a permutation of the dict's items, ordered by `(prefix, address)`, and items with equal keys keep their input order |
| CidrSort.KeyLeTotalOrder | main.py:261-263 | the `(prefixlen, network_address)` comparison is a total order |
| CidrSort.SortEntriesByCidrUnique | main.py:265 | any key-sorted list that holds, key by key, the input's items in input order is the sort's result |
| CidrSort.SortIdempotent | main.py:265 | sorting twice gives the same dict as sorting once |
| CidrSort.SortKeepsDict | main.py:265 | sorting keeps every key with its value, and keys stay unique |
| OrderedDict.PutGet | main.py:160 | after `d[k] = v`, `k` maps to `v`, every other key keeps its value, and keys stay unique |
| OrderedDict.Put | main.py:160 | assignment adds `k` to the keys and appends when `k` was absent |
| OrderedDict.Delete | main.py:380 | `del d[k]` keeps exactly the items with another key |
| OrderedDict.RestrictGet | main.py:379-380 | keeping only some keys keeps their values and keeps keys unique |
| OrderedDict.RestrictDelete | main.py:379-380 | deleting one more key from a restriction is restricting to one key fewer |
| OrderedDict.Merge | main.py:382 | `{**a, **b}` has the keys of both and keeps keys unique |
| OrderedDict.MergeGet | main.py:382 | in `{**a, **b}` a key of `b` takes its value from `b`, any other key from `a` |
| Reconcile.FetchWhoisInfo | main.py:287-299 | the loop's dict holds an entry iff it is in the list and either was in the old file or its lookup succeeded; its value is the old comment or the lookup's comment (country, region and isp, with `None` for a missing field) |
| Reconcile.WhoisInfoMeaning | main.py:287-299 | the same membership and values, proved of the fold that specifies the loop |
| Reconcile.DropRemoved | main.py:379-380 | deleting every removed entry leaves exactly the old items whose key is current, in their order |
| Reconcile.ReconciledMeaning | main.py:375-382 | the merged dict holds only current entries; an entry already in the old file keeps its comment; a new entry is present iff its lookup succeeded, with the lookup's comment |
| Reconcile.CountsAgainstResult | main.py:375-385 | when no lookup fails, the added and removed counts are the key-set differences between the final dict and the old file |
| OutputFile.WriteEntries | main.py:328-335 | the written text is the concatenation, in dict order, of each item's line |
| OutputFile.TruncateBound | main.py:329-335 | with a limit of at least 5, `# ` plus the written comment take at most the limit; a long comment becomes its first `limit - 5` characters and `...` |
| OutputFile.TruncateIdempotent | main.py:329-335 | truncating an already written comment changes nothing |
| OutputFile.TruncateSmallLimit | main.py:331 | below 5 the slice stop is negative: at limit 4, `abcdef` is written as `abcde...`, over the limit, and truncating again changes it |
| OutputFile.SliceTo | main.py:331 | `s[:stop]` has Python's length for positive and negative `stop` |
| OutputFile.LoadExistingOutputFileEntries | main.py:152-160 | a missing file gives the empty dict; otherwise the dict is the fold of the line parser over the file's lines; keys are unique |
| OutputFile.ParseRenderLine | main.py:156-159 | a written line parses back to its entry and its written comment |
| OutputFile.LoadRenderRoundTrip | main.py:156-160 | loading a written file gives back the dict with each non-empty comment truncated, when entries have no whitespace and comments are single trimmed lines |
| OutputFile.TruncateClean | main.py:159 | truncating a single trimmed line gives a non-empty single trimmed line |
| OutputFile.RenderLines | main.py:335 | the written text has no `\r` and splits into exactly one line per item |
| PyStr.SplitLinesKeepEnds | main.py:155 | the lines join back to the text; each is non-empty, has `\n` at most as its last character, and every line but the last ends in `\n` |
| PyStr.SplitLinesUnique | main.py:155 | any cutting of a text into pieces with those properties is the file's lines, so they determine the lines |
| PyStr.UniversalNewlines | main.py:154 | reading in text mode gives `t.replace("\r\n", "\n").replace("\r", "\n")`: each `\r\n` and each lone `\r` becomes one `\n`, every other character is kept, and no `\r` remains |
| PyStr.SplitOnce | main.py:157 | `split(" ", 1)` gives one part iff there is no space, and otherwise two parts around the first space |
| PyStr.BeforeFirst | main.py:197 | `s.split("/")[0]` is the prefix of `s` before the first `/` and contains no `/` |
| PyStr.Utf8Size | main.py:336 | the UTF-8 size of a text is between its length and four times its length |
| PyStr.Utf8SizeAscii | main.py:336-337 | an ASCII text's size in bytes is its length |
| MainScript.LoadInputFileEntries | main.py:132-136 | one entry per line of the file; each entry is its line with only whitespace cut from its two ends, and has no newline and no whitespace at either end |
| PyStr.StripTrims | main.py:134 | `s.strip()` is `s` with only whitespace cut from its two ends |
| PyStr.TrimsUnique | main.py:134 | a text cut from `s` that way and with no whitespace at either end is unique, so the entry of each line is determined |
| MainScript.ValidInputsWellFormed | main.py:366-370 | under the input precondition, every entry that reaches grouping parses as a network |
| MainScript.GroupedParse | main.py:243-244 | every grouped entry parses as a network, so the sort key never raises |
| MainScript.WriteToOutputFile | main.py:318-343 | more than `fg_max_entries` entries fail with nothing written; otherwise the rendered text is written, and success holds iff its UTF-8 size is within `fg_max_size_bytes` |
| MainScript.ProcessLists | main.py:365-385 | the counts are the differences between the grouped entries and the old file's keys; the written dict is sorted, holds only grouped entries, keeps old comments, holds a new entry iff its lookup succeeded, and is written under the writer's caps |
| ValidatorScript.WriteEntriesToFile | IP_Blocklist_Validator.py:178-206 | 131072 entries or more fail with nothing written; otherwise the rendered text is written, and success holds iff its UTF-8 size is at most 10485760 bytes |
| ValidatorScript.CommentRendering | IP_Blocklist_Validator.py:182-197 | at the 63-character limit a comment of more than 61 characters is written as its first 58 and `...`; an empty comment writes the bare entry |
| ValidatorScript.ProcessLists | IP_Blocklist_Validator.py:212-229 | the same pipeline with threshold 10 and the older writer: the written dict is sorted, holds only current entries, keeps old comments and holds a new entry iff its lookup succeeded |

## Left out

- Git plumbing is not modelled: repository set-up, remote-change checks, pull, commit and push call an external library.
- Configuration loading, logging and the scheduling loop are not modelled: they are JSON file I/O, global side effects and timers.
- `main` is not modelled. That includes its use of only the last file's `processed` flag: this is orchestration across files.
- The HTTP request in `fetch_whois_info` is not modelled. It is the `lookup` parameter, a function from the address text to the three response fields, or `None` when anything raised.
- File I/O is not modelled. Files are texts; missing input files and `IOError` while writing are not modelled.
- MainScript.WriteToOutputFile measures the file as the UTF-8 size of the written text. It does not model Windows newline translation, which would add one byte per line on disk.
- ValidatorScript.WriteEntriesToFile measures the file as the UTF-8 size of the written text too. Its script is set up for a Windows drive (IP_Blocklist_Validator.py:13), where text mode writes `\r\n` and the size `os.path.getsize` reports is one byte per line larger; the model does not add that byte, so near the 10485760-byte cap it can accept a file the script rejects.
- IPv6 is not modelled. Addresses are IPv4 dotted quads, so an IPv6 line is rejected by validation in the model.
- The exact acceptance rules of Python's `ipaddress` parser are not modelled. `Ipv4.ParseAddress` accepts four dot-separated decimal octets of one to three digits with no leading zero, and no other forms. `Ipv4.ParsePrefix` accepts only a decimal prefix length from 0 to 32, so the netmask and hostmask suffixes that `ip_network` also accepts, such as `1.2.3.0/255.255.255.0`, are rejected by the model.
- Grouping.GroupIpsIntoSubnets requires every input to parse as a network. It does not model the exception that an accepted line with a bad suffix, such as `1.2.3.4/99`, raises in `ip_network`. MainScript.ProcessLists and ValidatorScript.ProcessLists carry the same precondition on the input file.
- Grouping.GroupIpsIntoSubnets returns the result set in an unspecified order. `list(result)` follows Python's set iteration order, which the model does not fix; only the set and the absence of duplicates are stated.
- MainScript.ProcessLists returns the sorted dict and the written text besides `(success, added, removed)`. They stand in for the output file's new content.
- The input file is read with the platform's default encoding; the model takes its decoded text.
