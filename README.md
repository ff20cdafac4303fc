# memcached-aws-api in Dafny

memcached-aws-api is a service broker for pooled Amazon ElastiCache memcached
clusters. An out-of-band process fills a Postgres table `provision` with
ready clusters, one row each (`name`, `plan`, `claimed` = `'yes'`/`'no'`,
`make_date`). The broker:

- **Provision.** Claims the oldest unclaimed cluster of the requested plan.
  It tags that cluster with the caller's billing code, then answers the
  cluster's `host:port` URL.
- **Deprovision.** Deletes the cluster in ElastiCache first, and only after
  that deletes its row.
- **Tag.** Tags any cluster, which it addresses by ARN. It also answers the
  URL of a cluster.
- **Cache node commands.** Talks to a cluster's first cache node over the
  memcached text protocol: `stats` is parsed into key/value pairs, and
  `flush_all` answers the node's trimmed acknowledgement.

The model has six modules:

| module | file | what it holds |
|---|---|---|
| `Wrappers` | `wrappers.dfy` | `Option` and `Result` |
| `Text` | `text.dfy` | The parts of Go's `strings` and `strconv` that the server relies on: `strings.Split` with a one-character separator, `strings.HasPrefix`, `strings.TrimSpace` over ASCII white space, and `strconv.FormatInt(n, 10)`. Each has an inverse or reference definition, and the round trip is proved. |
| `Identifiers` | `identifiers.dfy` | The cluster ARN and the endpoint URL, each with a reader that recovers its parts. |
| `Stats` | `stats.dfy` | The `STAT` reply parser: a specification function, and the loop of `getstats` proved against it. |
| `Pool` | `pool.dfy` | The `provision` table, as a class whose `rows` field the select, update and delete statements change. |
| `Handlers` | `handlers.dfy` | The request handlers. They take the answers of the control plane, the database and the TCP connection as inputs, and return the control-plane requests they issued. |

## Model

| member | source | states |
|---|---|---|
| Text.HasPrefix | server.go:364 | `strings.HasPrefix`: the text is the prefix followed by the rest of the text |
| Text.Split | server.go:362 | `strings.Split` on a one-character separator yields one more piece than there are separators, and no piece holds the separator |
| Text.JoinSplit | server.go:362 | joining the pieces of a split with the separator gives back the input |
| Text.SplitJoin | server.go:367 | splitting a join of separator-free pieces (at least one) gives back exactly those pieces |
| Text.SkipSpace | server.go:372 | stops at the first non-space at or after `i` (or at the end), with only spaces skipped |
| Text.SkipSpaceBack | server.go:372 | stops just after the last non-space before `j` (or at `lo`), with only spaces skipped |
| Text.TrimSpace | server.go:316 | the result is a slice of the input that has only white space before and after it, and the slice begins and ends with a non-space |
| Text.TrimSpaceUnique | server.go:316 | the trimmed slice is the only one with that property |
| Text.TrimSpaceIdempotent | server.go:372 | trimming twice is the same as trimming once |
| Text.TrimSpacePadded | server.go:316 | white space added on either side does not change the result |
| Text.DigitChar | server.go:159 | a digit value 0-9 maps to a decimal digit character that `DigitValue` reads back as that value |
| Text.DigitValue | server.go:159 | a decimal digit character maps to its value 0-9 |
| Text.Digits | server.go:159 | the decimal digits of a natural number, without a leading zero |
| Text.FormatInt | server.go:159 | `strconv.FormatInt(n, 10)` is non-empty, begins with `-` exactly when `n` is negative, and is digits otherwise |
| Text.DigitsValueOfDigits | server.go:159 | reading the digits of `n` back gives `n` |
| Text.ReadNegative | server.go:159 | a negative number's text is a minus sign followed by the digits of its magnitude, and reads back as that number |
| Text.FormatIntRoundTrip | server.go:159 | reading `FormatInt(n)` back as a decimal gives `n` |
| Text.FormatIntInjective | server.go:159 | different ports format differently |
| Identifiers.ClusterArn | server.go:53 | the ARN is the stem `arn:aws:elasticache:<region>:<account>:cluster:` followed by the cluster name |
| Identifiers.ArnRoundTrip | server.go:124 | the name read back from the ARN is the name it was built from, and an ARN that reads back to a name is that name's ARN |
| Identifiers.ArnInjective | server.go:124 | in one region and account, different clusters get different ARNs |
| Identifiers.Url | server.go:157-160 | the URL is the host, one `:`, and a port text without a colon |
| Identifiers.LastColon | server.go:246-249 | finds the last `:` of a text, or reports that there is none |
| Identifiers.UrlRoundTrip | server.go:246-249 | splitting a URL at its last colon gives back the host and the port, even when the host holds colons |
| Identifiers.UrlInjective | server.go:157-160 | different endpoints get different URLs |
| Stats.StatOf | server.go:367-374 | a line with at least three space-separated fields gives a stat whose key is the second field and whose value is the trimmed third field; neither holds a space, and the value has no white space at its ends |
| Stats.StatLines | server.go:363-364 | the lines kept are all `STAT` lines, and there are no more of them than input lines |
| Stats.StatLinesMember | server.go:364 | every `STAT` line of the reply is kept |
| Stats.StatLinesAppend | server.go:363 | the filter works line by line over concatenated replies |
| Stats.NonStatLineIgnored | server.go:364 | a line that does not begin with `STAT` (such as `END`) contributes nothing |
| Stats.ParseLines | server.go:363-378 | the loop's result over the reply's lines, line by line: non-`STAT` lines are skipped, a well-formed `STAT` line adds its entry, and the first `STAT` line without a value stops it with that line and its index; on success there are no more entries than lines |
| Stats.ParseStats | server.go:362-378 | the parse of a whole reply, split at `\n`: on success at most one entry per line of the reply; a failure names a `STAT` line that has no value and holds no line break |
| Stats.ParseStatsMeaning | server.go:362-378 | the whole reply parses exactly when every `STAT` line has a value, into one entry per `STAT` line in order; otherwise the error is a malformed `STAT` line of the reply, with its index |
| Stats.ParseLinesSuccess | server.go:362-378 | parsing succeeds exactly when every `STAT` line has a value; it then yields one stat per `STAT` line, in order |
| Stats.ParseLinesFailure | server.go:367-372 | a failure names a `STAT` line that has no value, and every earlier `STAT` line is well formed |
| Stats.ParseLinesPrefixFailure | server.go:363-378 | a malformed `STAT` line in a prefix decides the outcome of the whole reply |
| Stats.GetStats | server.go:356-378 | the loop of `getstats` computes `ParseStats`: it succeeds exactly when every `STAT` line is well formed and then yields those lines' stats in order; otherwise it reports the first `STAT` line without a value, with its index |
| Stats.ExampleReply | server.go:362-378 | a two-entry `stats` reply ending in `END` parses to `pid`=`123`, `uptime`=`456` |
| Stats.ExampleMissingValue | server.go:371-372 | the reply `STAT onlykey` is reported as malformed at line 0 |
| Stats.MissingValueLine | server.go:371-372 | the line `STAT onlykey` passes the `STAT` prefix test but splits into only two fields |
| Pool.DeleteName | server.go:201-214 | deleting by name never adds rows |
| Pool.DeleteNameMembers | server.go:201-214 | a row survives the delete exactly when it was present and has another name |
| Pool.DeleteNameEffect | server.go:201-214 | with unique names, deleting an absent name changes nothing and deleting a present name removes exactly its row; names stay unique |
| Pool.DeleteNameAt | server.go:201-214 | with unique names, deleting the name of row `i` leaves the rows before and after it |
| Pool.CountEligibleZero | server.go:93 | no row of the plan is unclaimed exactly when the count of eligible rows is zero |
| Pool.CountEligibleAppend | server.go:93 | the eligible count adds up over concatenated tables |
| Pool.SetClaimed | server.go:103-111 | the update keeps every row in place with its name, plan and `make_date`, sets the flag of the rows with that name to the given value, and keeps the flag of every other row |
| Pool.SetClaimedAbsent | server.go:103-111 | updating the claim flag of a name that is not in the table changes nothing |
| Pool.ClaimEffect | server.go:103-111 | with unique names, claiming row `i` changes that row's flag to `yes` and no other row; names stay unique |
| Pool.ClaimCount | server.go:93-117 | claiming an eligible row takes exactly one row out of the plan's pool |
| Pool.RemoveOneUnique | server.go:201-214 | removing one row keeps names unique |
| Pool.ProvisionTable.constructor | server.go:93 | a table starts with the given rows, whose names are unique |
| Pool.ProvisionTable.SelectOldest | server.go:93 | the select finds nothing exactly when no row of the plan is unclaimed; otherwise it names an unclaimed row of the plan with the smallest `make_date` |
| Pool.ProvisionTable.Update | server.go:103-111 | after `update provision set claimed=$1 where name=$2`, the table is the old table with that name's flag set, and names stay unique |
| Pool.ProvisionTable.Delete | server.go:201-214 | after `delete from provision where name=$1`, the table is the old one without that name's rows, and `affected` is the number of rows removed; names stay unique |
| Pool.ProvisionTable.Claim | server.go:93-117 | either nothing of the plan was unclaimed and the table is unchanged, or the oldest unclaimed row of the plan is now claimed, nothing else changed, and the plan's pool shrank by one; names stay unique |
| Handlers.Provision | server.go:78-161 | a database or pool failure sends nothing to the control plane and changes nothing. After a claim, the oldest row is claimed, one tag request with `billingcode` goes to that cluster's ARN, and the describe follows only if tagging succeeded. A failure after the claim leaves the row claimed. Success answers the node's URL. |
| Handlers.Deprovision | server.go:175-223 | the cluster is deleted in ElastiCache first. If that fails the table is untouched. If the store then fails, the table is untouched and a partial failure is reported. Otherwise exactly the row of that name is removed (1 affected row if it existed, else 0). |
| Handlers.TagReplyAsWritten | server.go:66-75 | the reply as written: "tag added" exactly when the control plane accepted the tag, and otherwise an error field that is null |
| Handlers.TagReplyOf | server.go:66-75 | the reply is "tag added" exactly when the control plane accepted the tag, and otherwise carries the control plane's error |
| Handlers.TagErrorDropped | server.go:66-71 | as written, a failed tag request is answered with a null error instead of its reason |
| Handlers.Tag | server.go:35-76 | one tag request, with the caller's key and value, goes to an ARN that reads back as the named cluster in the server's region and account; the reply reflects the control plane's answer |
| Handlers.ClusterUrl | server.go:233-250 | one describe request; the answer is exactly `Url` of the node when the cluster has one and nothing otherwise, and it reads back as that node's endpoint |
| Handlers.FetchStats | server.go:320-388 | one describe request; no connection without a node; the exchange is aimed at the node's URL with `stats\n`; a transport failure is an error; otherwise the result is the parse of the reply |
| Handlers.FlushAll | server.go:276-319 | one describe request; no connection without a node; the exchange is aimed at the node's URL with `flush_all\n`; a transport failure is an error; otherwise the answer is the reply with its surrounding white space trimmed |
| Handlers.FlushAllExample | server.go:316 | a padded `OK` acknowledgement is answered as `OK` |

Where the code's behaviour is doubtful, the model follows the code, except for the two bugs under Findings:

- **Plans are not validated.** The code runs the select with whatever plan it
  receives. An unknown plan simply finds no row, so `plan` is a string and
  has no `InvalidArgument` error.
- **The claim is two statements.** It is a select followed by a separate
  update (server.go:93, 103-111), not one atomic conditional update. The
  model treats the pair as one sequential step.
- **A tag failure reports no reason.** As written, the tag handler answers
  a failed tag request with the binding errors, which are nil at that point
  (server.go:69). `Handlers.TagReplyAsWritten` and `Handlers.TagErrorDropped`
  model that reply. `Handlers.Tag` answers with the intended reply,
  `Handlers.TagReplyOf`, which passes the control plane's error on (see
  Findings).

## Left out

- HTTP routing, JSON binding and rendering (martini, `binding.Json`, `r.JSON`) are left out. So are the status codes: for example, server.go:243 answers an error with status 200. Also left out are the double response written by `GetStats` and `FlushAll` after an error (server.go:258-273), and the `json.Marshal` call of `getstats` (server.go:379-383).
- The plans listing (server.go:225-231) is a constant map.
- Environment variables (`REGION`, `ACCOUNTNUMBER`, `BROKERDB`) and logging are left out. `region` and `account` are parameters.
- The AWS SDK calls are not modelled. Their outcomes are inputs: `tagOk`, `cloudOk`, `awsError`, and `node`. An answer with no cluster or no cache node makes Go panic at `CacheClusters[0].CacheNodes[0]`. The model does not represent that case; `node` is None only for a failed describe.
- The Postgres connection and the SQL text are left out; `storeOk` says whether the database answers. All statements of one request are taken to succeed together. A failure of the update after a successful select (server.go:103-117) is not modelled separately.
- `res.RowsAffected()` failing (server.go:215-221) is left out. The affected count is only logged by the source; the model returns it.
- Handlers.Provision: concurrency is not modelled. Two concurrent requests can both select the same row before either updates it, because the select and the update are separate statements (server.go:93-111). The model proves the claim correct for requests that run one after another only.
- TCP I/O is not modelled: resolving, dialling, writing the command, `CloseWrite` and `ReadAll`. The whole reply, or its failure, is an input (`reply`). The bytes are taken as characters one for one.
- Text.TrimSpace: only ASCII white space is trimmed. Go's `strings.TrimSpace` also trims Unicode white space such as U+0085 and U+00A0.
- Identifiers.Url: the port is an unbounded integer, not Go's `int64`. No port the control plane returns comes near the bound.
- Pool.ProvisionTable.SelectOldest: when several unclaimed rows share the smallest `make_date`, Postgres may return any of them. The contract states only that the chosen row is one of the oldest, not which one.

## Findings

| source | as written | input that shows it | evidently intended | confidence | as-written member | corrected member |
|---|---|---|---|---|---|---|
| server.go:371-372 | `stata[1]` and `stata[2]` are indexed without checking how many fields the `STAT` line split into | the reply line `STAT onlykey` splits into two fields, so `stata[2]` is out of range and the handler panics | a malformed `STAT` line is reported as an error of the reply | not executed | Stats.MissingValueLine | Stats.GetStats |
| server.go:69 | a failed tag request is answered with `berr`, the binding errors, which are nil once line 36 has passed | any tag request the control plane rejects, e.g. one for an unknown cluster, is answered `{"error": null}` | the control plane's error is passed on | not executed | Handlers.TagErrorDropped | Handlers.Tag |
