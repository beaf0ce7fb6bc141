# nextdns4me, modelled in Dafny

nextdns4me keeps the DNS rewrites of a NextDNS profile in step with a hosts
file. It parses hosts-file text (`<ip> <domain> [domain ...]` per line) into
rewrite records (`parse_records`). It then diffs those records against the
rewrites the profile already holds, keyed on `(name, content)`, and issues one
delete request per rewrite that is no longer wanted. Only after those, it
issues one add request per record that is missing (`update_nextdns_rewrites`).
In an internal run the hosts text is the dns4me hosts text followed by a
newline and the custom records, stripped of surrounding whitespace.

The project has five modules:

- `PyText` (PyText.dfy): the three Python string operations the parser relies
  on, over Python's whitespace. These are `s.split(sep)`, whose inverse is
  `sep.join`, `s.strip()`, and `s.split()` with no argument.
- `Hosts` (Hosts.dfy): the parser.
  - `Parse` is the specification.
  - `ParseRecords` is the parser as written: a loop over lines with a nested
    loop over domain names that appends to a list. It is proved equal to
    `Parse`.
  - The address check `ipaddress.ip_address` is a parameter `isValidIp`.
- `Reconcile` (Reconcile.dfy): the outer-join diff.
  - `to_be_deleted` holds the current rewrites whose key the target lacks,
    projected to `(id, name)`.
  - `to_be_added` holds the target records whose key no current rewrite
    has.
  - Duplicates are kept. Rows are kept in input order.
- `Seqs` (Seqs.dfy): small facts about sequence concatenation, used as proof
  steps by the other modules.
- `Sync` (Sync.dfy): the dispatch.
  - `RewritesApi` is the endpoint as the client sees it: the list of requests
    issued so far.
  - `UpdateRewrites` is proved to issue exactly `Plan`: every delete, then
    every add.
  - A model of what the service does with those requests shows that one
    reconciliation leaves it holding exactly the target's keys.

Two behaviours of the parser, as written, are worth knowing:

- A `#` comment after the domain names is not recognised. Its words become
  records of their own (`Hosts.TrailingCommentKept`).
- A line whose first token is `#` is dropped, but only because `#...` is not a
  valid address (`Hosts.CommentLineDropped` takes this as a requirement on
  `isValidIp`).

## Model

| member | source | states |
|---|---|---|
| `Hosts.ParseRecords` | main.py:48-71 | The loop over the lines of `hosts_content.split("\n")` and over each valid line's domain names returns exactly `Parse(isValidIp, hostsContent)`. |
| `Hosts.ParseLinesAppend` | main.py:52-69 | The records of consecutive blocks of lines are the records of each block, concatenated in line order. |
| `Hosts.ParseConcat` | main.py:52 | Parsing `a + "\n" + b` gives the records of `a` followed by the records of `b`. |
| `Hosts.ParseJoined` | main.py:52 | Text laid out as newline-free lines joined by `\n` gives each line's records, in line order. |
| `Hosts.ParseOneLine` | main.py:52-53 | Text without a newline is judged as a single line. |
| `Hosts.LineRecords` | main.py:53-69 | A line contributes according to `line.split()` alone; the `strip()` before it changes nothing. |
| `Hosts.PartsRecordsAt` | main.py:54-69 | A line with fewer than two tokens, or whose first token fails the address check, gives no record; otherwise it gives one record per further token, the k-th pairing the first token with the (k+1)-th. |
| `Hosts.ShortLineDropped` | main.py:54-55 | A line with fewer than two whitespace-separated tokens contributes no record. |
| `Hosts.InvalidAddressDropped` | main.py:57-64 | A line whose first token fails the address check contributes no record. |
| `Hosts.CommentLineDropped` | main.py:53-64 | A line whose first non-blank character is `#` contributes no record, for any address check that rejects text starting with `#`. |
| `Hosts.HostLine` | main.py:57-69 | A line `ip d1 ... dk` with a valid `ip` gives exactly k records; the i-th is `{content: ip, name: di}`. |
| `Hosts.RecordsForAt` | main.py:67-69 | The domain loop appends one record per domain name, in order, each pairing the line's address with that name. |
| `Hosts.LineRecordsSound` | main.py:53-69 | Every record of a line has a content that passed the address check, and a non-empty, whitespace-free content and name. |
| `Hosts.ParseLinesSound` | main.py:52-69 | The same holds for every record of a sequence of lines. |
| `Hosts.ParseSound` | main.py:48-71 | The same holds for every record `parse_records` returns. |
| `Hosts.ParseLeadingSpace` | main.py:52-53 | Blank text in front of the hosts text, newlines included, changes no record. |
| `Hosts.ParseTrailingSpace` | main.py:52-53 | Blank text after the hosts text, newlines included, changes no record. |
| `Hosts.ParseBlankAfter` | main.py:52-53 | One blank character after the text changes no record: a newline adds an empty line, any other blank only widens the last line. |
| `Hosts.ParseNewlineAfter` | main.py:52 | A newline after the text only adds an empty last line, which gives no record. |
| `Hosts.ParseLineBlankAfter` | main.py:52-53 | A blank character other than a newline after the text only widens the last line and changes none of its tokens. |
| `Hosts.ParseStrip` | main.py:117-118 | Stripping the hosts text before parsing it changes no record. |
| `Hosts.FullHostsRecords` | main.py:117-118 | The records of an internal run's `f"{dns4me}\n{custom}".strip()` are the dns4me records followed by the custom records. |
| `Hosts.ExampleTwoDomains` | main.py:57-69 | `1.2.3.4 a.example b.example` gives the two records for `1.2.3.4`, in order. |
| `Hosts.ExampleInvalidAddress` | main.py:60-64 | `not-an-ip a.example` gives no record. |
| `Hosts.TrailingCommentKept` | main.py:53-69 | `1.2.3.4 a.example # comment` gives three records: `a.example`, `#` and `comment`. |
| `PyText.AsciiSpaces` | main.py:53 | Among ASCII characters, `str.strip()` and `str.split()` treat exactly tab, newline, vertical tab, form feed, carriage return, 0x1C-0x1F and space as whitespace. |
| `PyText.Split` | main.py:52 | `str.split(sep)` always returns at least one part. |
| `PyText.SplitConcat` | main.py:52 | Splitting `a + sep + b` gives the parts of `a` followed by the parts of `b`. |
| `PyText.SplitNoSep` | main.py:52 | Text without the separator splits into itself alone. |
| `PyText.JoinSplit` | main.py:52 | Joining the parts of a split with the separator gives the text back. |
| `PyText.SplitJoin` | main.py:52 | Splitting a join of separator-free parts gives the parts back. |
| `PyText.SplitSnoc` | main.py:52 | Appending a character other than the separator extends only the last part. |
| `PyText.TrimStartParts` | main.py:53 | `lstrip()` removes a wholly blank prefix and leaves text that is empty or starts with a non-blank. |
| `PyText.TrimEndParts` | main.py:53 | `rstrip()` removes a wholly blank suffix and leaves text that is empty or ends with a non-blank. |
| `PyText.StripParts` | main.py:53 | The text is a blank prefix, then `strip()` of it, then a blank suffix; the stripped text is empty or has non-blank ends. |
| `PyText.Tokens` | main.py:53 | Text that starts with a non-blank character has a first token, which starts with that character. |
| `PyText.TokensAreTokens` | main.py:53 | Every token of `split()` is non-empty and contains no whitespace. |
| `PyText.TokensSplitAt` | main.py:53 | A blank character separates the tokens before it from those after it. |
| `PyText.TokensOfSpace` | main.py:53 | Blank text has no tokens. |
| `PyText.TokensLeadingSpace` | main.py:53 | Leading whitespace does not change the tokens. |
| `PyText.TokensTrailingSpace` | main.py:53 | Trailing whitespace does not change the tokens. |
| `PyText.TokensStrip` | main.py:53 | `strip().split()` gives the same tokens as `split()`. |
| `PyText.TokensOfToken` | main.py:53 | A single token splits into itself. |
| `PyText.TokensOfJoin` | main.py:53 | Tokens joined with single spaces split back into the same tokens. |
| `Reconcile.Unmatched` | main.py:29-31 | The rows kept on one side of the merge are each row whose key the other side lacks, as many times as it occurs there, and no other row. |
| `Reconcile.DeletedRows` | main.py:29-30 | The rows marked `left_only` are exactly the current rewrites whose `(name, content)` the target lacks. |
| `Reconcile.ToBeDeleted` | main.py:29-30 | `to_be_deleted` has one row per `left_only` rewrite, in the same position: row i is the `(id, name)` of the i-th such rewrite. So every such rewrite appears once per occurrence, and no other row appears. |
| `Reconcile.Project` | main.py:30 | Projecting to `[['id', 'name']]` keeps one row per row, in place: row i is the `(id, name)` of input row i. |
| `Reconcile.ToBeAdded` | main.py:29-31 | `to_be_added` holds each target record whose key no current rewrite has, as many times as it occurs in the target, and no other record. |
| `Reconcile.UnmatchedMembers` | main.py:29-31 | A row is kept exactly when it is a row of its side whose key the other side lacks. |
| `Reconcile.UnmatchedKeys` | main.py:29-31 | The keys of the kept rows are the side's keys minus the other side's keys. |
| `Reconcile.DiffKeys` | main.py:29-31 | Deleted keys are the current keys minus the target keys, and added keys the reverse. These two and the shared keys are pairwise disjoint, and together they are every key of either side. |
| `Reconcile.UnmatchedNone` | main.py:29-31 | No row is kept when the other side has every key of this side. |
| `Reconcile.DiffSameKeys` | main.py:29-31 | When both sides have the same keys, nothing is deleted and nothing is added. |
| `Reconcile.ExampleOneMissing` | main.py:29-31 | With one rewrite already in place and one missing, nothing is deleted and only the missing record is added. |
| `Sync.DeleteCalls` | main.py:34-35 | The delete phase issues one delete request per row of `to_be_deleted`: request i deletes the id of row i. |
| `Sync.AddCalls` | main.py:38-39 | The add phase issues one add request per row of `to_be_added`: request i adds the `(name, content)` of row i. |
| `Sync.Dispatch` | main.py:33-39 | The requests of a diff are one delete per deletion, request i for row i, followed by one add per addition, request `d + i` for row i. |
| `Sync.Plan` | main.py:28-39 | One reconciliation issues one request per row of the diff. Each target record whose key no current rewrite has is added as often as it occurs in the target, and no other record is added. |
| `Sync.DispatchAddCounts` | main.py:33-39 | An add request occurs among the requests exactly as often as its record occurs among the additions. |
| `Sync.AddCallsCount` | main.py:38-39 | The add phase issues the add request for a record as often as the record occurs in `to_be_added`. |
| `Sync.DeleteCallsHaveNoAdd` | main.py:34-35 | The delete phase issues no add request. |
| `Sync.ExampleDuplicateAdd` | main.py:28-39 | Against one current rewrite that the target lacks, a target listing the same record twice gets one delete request and then two identical add requests. |
| `Sync.DeleteCallsAreDeletes` | main.py:35 | The delete requests carry exactly the ids of the rows to delete, and nothing else. |
| `Sync.AddCallsAreAdds` | main.py:39 | The add requests carry exactly the `(name, content)` of the rows to add, and nothing else. |
| `Sync.DispatchDeletesFirst` | main.py:33-39 | One request per row of the diff, and once an add has been issued no delete follows. |
| `Sync.RewritesApi.DeleteDnsRecord` | main.py:23-26 | `delete_dns_record` issues one delete request for that id. |
| `Sync.RewritesApi.AddDnsRecord` | main.py:16-19 | `add_dns_record` issues one add request with that name and content. |
| `Sync.DeleteAll` | main.py:34-35 | The delete loop issues the delete requests of its rows, in row order. |
| `Sync.AddAll` | main.py:38-39 | The add loop issues the add requests of its rows, in row order. |
| `Sync.IssueAll` | main.py:33-39 | Both loops together issue every delete, then every add. |
| `Sync.UpdateRewrites` | main.py:28-39 | `update_nextdns_rewrites` issues exactly `Plan(current, target)`: the deletes of the diff, then its adds. |
| `Sync.PlanDeletes` | main.py:28-35 | A delete request for `id` is issued exactly when some current rewrite with that id has a `(name, content)` the target lacks. |
| `Sync.PlanAdds` | main.py:28-39 | An add request for `(name, content)` is issued exactly when the target has that key and no current rewrite has it. |
| `Sync.RemoveId` | main.py:23-24 | The service keeps every stored rewrite except those with the deleted id. |
| `Sync.ApplyMembers` | main.py:16-26 | The service answers a delete by keeping exactly the rewrites with another id, and an add by keeping every rewrite and storing one more under the id it picks. |
| `Sync.ApplyAll` | main.py:33-39 | After a run of requests, every stored rewrite was stored before or carries one of the ids the service picked for the run. |
| `Sync.ApplyAllUniqueIds` | main.py:33-39 | When the service picks a fresh, distinct id for each request, ids stay unique through any run of requests. |
| `Sync.ApplyAllAppend` | main.py:33-39 | The service's state after two batches of requests is the state after the first batch with the second applied. |
| `Sync.AfterDeletes` | main.py:34-35 | After the delete phase the service keeps exactly the rewrites whose id was not deleted. |
| `Sync.AfterAdds` | main.py:38-39 | After the add phase the stored keys are the earlier keys plus the added keys. |
| `Sync.KeptAfterDeletes` | main.py:28-35 | With unique ids, the delete phase keeps exactly the current keys the target also has. |
| `Sync.Converges` | main.py:28-39 | With unique ids and a fresh id per request, one reconciliation leaves the service holding exactly the target's keys under unique ids, so a second diff plans nothing. |
| `Sync.DispatchConverges` | main.py:33-39 | The same, for the dispatch of the diff's two lists. |
| `Sync.KeysAfterDispatch` | main.py:33-39 | With unique ids, the deletes keep the current keys the target has and the adds bring in the rest, so the stored keys are the target's keys. |

## Left out

- HTTP and JSON: the requests are recorded in `RewritesApi.issued` and not sent. This covers the GET of the current rewrites, the dns4me download and `raise_for_status`.
- Response printing and the `print` of ignored addresses are left out.
- Rate limiting (`@limits`, `@sleep_and_retry`, 10 calls a minute) is timing only and does not change which requests are made.
- Thread pools: the source maps each phase over a `ThreadPoolExecutor`, so the requests within one phase may run in any order. Leaving the `with` block waits for them all, so every delete completes before any add starts. The model issues each phase sequentially in row order. The property it relies on is `Sync.DispatchDeletesFirst`, which is exactly the guaranteed part.
- The address check `ipaddress.ip_address` is a parameter. The model does not define the IPv4 and IPv6 grammar.
- Environment variables, `get_environment_variable` and `SystemExit` are left out.
- Discord notifications (`send_discord_notification`) are left out.
- The run-mode dispatch (main.py:108-138) is left out. Only its hosts-text concatenation is modelled (`Hosts.FullHostsContent`).
- pandas ordering: an outer merge sorts its rows by the join key. The model keeps the input order, so the source's `to_be_deleted` and `to_be_added` are a permutation of the model's lists. Every stated property is about membership and multiplicity, except the request order inside a phase, which is not fixed anyway.
- pandas on empty lists: a frame built from an empty list has no `name` or `content` column, so the source's merge fails when either side is empty. The model treats an empty list as a list with no keys. It then deletes every current rewrite, or adds every target record.
- The remote service is modelled only as far as `Sync.Apply` says. A delete removes the rewrites with that id. An add stores a new rewrite under an id the service picks. The ids for a run are the parameter `newIds`, one per request. Failed requests are not modelled.
- `Sync.Converges`, `Sync.DispatchConverges`, `Sync.KeysAfterDispatch` and `Sync.KeptAfterDeletes` require unique ids in the service's list. `Sync.Converges` and `Sync.DispatchConverges` also require that the ids the service picks for a run be distinct and not already in use. The service is trusted to do both.
