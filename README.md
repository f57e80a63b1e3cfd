# mellon: a verified model of the token store and the bearer-token check

mellon is a small authorisation service. An administrator keeps a file of
bearer tokens, one `label:secret` pair per line, through a command-line tool.
A server answers each HTTP connection with `200 OK` when the request carries
`Authorization: Bearer <secret>` for a stored secret, and `401 UNAUTHORISED`
otherwise.

This project models that core in Dafny and proves properties of the model:

- `token.dfy` (module `Tokens`): the `Token` pair, its one-line form
  `label:secret`, and the parser that splits a line on its first `:` and trims
  both halves. The whitespace Rust's `trim` removes is written out as the
  Unicode White_Space set. The round trip between parser and printer is proved
  for every well-formed token. Because labels are free text, a label with a
  `:` does not survive it.
- `token_store.dfy` (module `TokenStores`): the `TokenStore` object and its
  fields. These are the map from label to token and the lookup set of secrets
  derived from it, each absent until loaded. The store also holds a
  `BackingFile` object standing for the file at the store's path.
  - `reload`, `rebuild_token_lookup` and `persist_to_file` are methods with
    their loops. `reload` is proved against the specification function
    `Reloaded`. The other two are proved against the lookup-set function
    `Secrets` and the predicate `Persisted`.
  - `create`, `rescind`, `contains_token` and `iter` state the store's whole
    new state.
  - Lemmas cover the rest: how a load fails at the first bad line, that the
    last line with a label wins, and how the lookup set changes on insert and
    remove. They also show that reloading a completely persisted store gives
    back the same map, provided every key is its token's label and every
    token is storable: a label without `:`, no surrounding whitespace on
    either field, and no line feed in either. `create` accepts any label, so
    a store holding a label outside that class does not come back unchanged
    (see `LabelWithSeparatorSplits`).
- `simple_server.dfy` (module `SimpleServer`): the status lines of
  `HttpResponse`, the header scan `extract_auth_token` (a method with a loop,
  proved against the function `ScanResult`), and the decision logic of
  `serve_connection`. A connection is modelled as the finite sequence of
  results its successive line reads produce.
- `cli.dfy` (module `Cli`): how the `list` subcommand masks a secret. Every
  character but the last four is replaced by `*`.
- `results.dfy` (module `Results`): the `Option`, `Result` and `Result<()>`
  wrappers that the other modules share.

The model follows the code as written:

- `TokenStore::new` only reloads. It does not create the parent directories of
  the store's path.
- When the header scan times out or a read fails, `serve_connection` returns an
  error and writes no response. The same happens when `contains_token` fails.
  In none of these cases does the client receive a `401`.
- When `create` or `rescind` fails to persist, the in-memory change and the
  rebuilt lookup set stay in place. Only the call reports the failure.

## Model

| member | source | states |
|---|---|---|
| Tokens.SkipLeading | src/tokens/token.rs:19-20 | the position of the first non-whitespace character from a start point; everything skipped is whitespace |
| Tokens.SkipTrailing | src/tokens/token.rs:19-20 | the end of the last non-whitespace character, not below the start of the trimmed text; everything skipped is whitespace |
| Tokens.Trim | src/tokens/token.rs:19-20 | the result has no whitespace at either end, and it is the input with a whitespace-only head and tail removed |
| Tokens.TrimOfTrimmed | src/tokens/token.rs:19-20 | trimming text without surrounding whitespace changes nothing |
| Tokens.TrimKeepsOut | src/tokens/token.rs:19-20 | trimming never introduces a character that the input lacks |
| Tokens.SplitOnce | src/tokens/token.rs:12-13 | there is no split exactly when the separator does not occur; otherwise the parts rebuild the input around the first separator |
| Tokens.SplitOnceAt | src/tokens/token.rs:12 | any decomposition whose first part is free of the separator is the one the split finds |
| Tokens.Parse | src/tokens/token.rs:11-17 | parsing fails, as improperly segmented, exactly when the line has no `:` |
| Tokens.ParseFields | src/tokens/token.rs:11-22 | a parsed token is the trimmed text before the first `:` and the trimmed text after it; the label holds no `:` and both fields are trimmed |
| Tokens.Serialise | src/tokens/token.rs:25-29 | the line is one character longer than the two fields and holds a `:`; when the label is free of `:`, splitting the line at its first `:` gives back the label and the secret |
| Tokens.SerialiseParses | src/tokens/token.rs:25-29 | every printed token parses |
| Tokens.ParseSerialise | src/tokens/token.rs:11-29 | round trip: a well-formed token (label without `:`, both fields trimmed) parses back from its line unchanged |
| Tokens.LabelWithSeparatorSplits | src/tokens/token.rs:12-27 | a label `x:y` does not round-trip: it comes back as `x`, and `y:` moves to the front of the secret |
| TokenStores.ReadToken | src/tokens/token_store.rs:47-50 | a line yields an error exactly when it cannot be read or holds no `:` |
| TokenStores.Collect | src/tokens/token_store.rs:46-52 | a successful load maps every key to the token carrying that label |
| TokenStores.CollectErrStays | src/tokens/token_store.rs:47-50 | once a prefix of the file fails to load, the whole file fails with the same error |
| TokenStores.CollectSucceedsWhenAllOk | src/tokens/token_store.rs:46-52 | the load succeeds when every line yields a token |
| TokenStores.CollectFailsAtFirstError | src/tokens/token_store.rs:47-50 | the load fails with the error of the first line that yields none |
| TokenStores.LoadFailsAtFirstBadLine | src/tokens/token_store.rs:44-52 | a reload fails if and only if some line is unreadable or has no `:`, and then with the first such line's error |
| TokenStores.CollectStep | src/tokens/token_store.rs:51 | a successful load is the load of all lines but the last, with the last token inserted under its label |
| TokenStores.CollectExtend | src/tokens/token_store.rs:51 | one more token extends a successful load by inserting it under its label |
| TokenStores.CollectCoversItems | src/tokens/token_store.rs:46-52 | after a successful load, every line's label is a key |
| TokenStores.CollectLastWins | src/tokens/token_store.rs:46-52 | after a successful load, each key holds a token from a line that no later line with the same label follows |
| TokenStores.LoadLastLineWins | src/tokens/token_store.rs:44-54 | for the lines of a file: every label is a key, and each key holds the token of the last line carrying it |
| TokenStores.ValuesAfterInsert | src/tokens/token_store.rs:98 | inserting under a fresh label adds exactly the new token to the map's values |
| TokenStores.ValuesCount | src/tokens/token_store.rs:117-122 | when keys are labels, the map holds as many distinct tokens as labels |
| TokenStores.SecretsAfterInsert | src/tokens/token_store.rs:97-99 | inserting a token under a fresh label adds exactly its secret to the lookup set |
| TokenStores.SecretsAfterRemove | src/tokens/token_store.rs:111-112 | removing a label keeps every other token's secret; the removed secret stays exactly when another token shares it |
| TokenStores.CoveredStep | src/tokens/token_store.rs:51 | reading one more persisted line inserts its token under its label |
| TokenStores.CollectListed | src/tokens/token_store.rs:46-52 | loading tokens of a map, read from lines in any order, gives the part of the map they cover |
| TokenStores.LoadListing | src/tokens/token_store.rs:59-66 | loading the lines written for tokens of a map whose tokens are all storable gives the part of the map they cover |
| TokenStores.ReloadPersisted | src/tokens/token_store.rs:59-66 | round trip: reloading a file that lists every token of a map gives back that map, when keys are labels and every token is storable (label without `:`, trimmed fields, no line feed) |
| TokenStores.TokenStore.Unloaded | src/tokens/token_store.rs:20-24 | a new store has neither map nor lookup set, and refers to its file |
| TokenStores.TokenStore.New | src/tokens/token_store.rs:19-27 | construction succeeds exactly when the first reload does; the store then holds the map loaded from the file |
| TokenStores.TokenStore.Reload | src/tokens/token_store.rs:29-57 | the map becomes what the file holds (a missing file gives an empty map and an empty lookup set); on an open, read or parse error both fields keep their values; the lookup set stays the secrets of the map |
| TokenStores.TokenStore.RebuildTokenLookup | src/tokens/token_store.rs:78-88 | fails on an unloaded store; otherwise the lookup set becomes exactly the secrets of the map |
| TokenStores.TokenStore.PersistToFile | src/tokens/token_store.rs:59-68 | a failed create leaves the file as it was; otherwise the file is truncated and lists each token once, or only the tokens written before the failing write |
| TokenStores.TokenStore.ContainsToken | src/tokens/token_store.rs:70-76 | fails exactly when the store is unloaded; otherwise tells whether some stored token has this secret |
| TokenStores.TokenStore.Create | src/tokens/token_store.rs:90-102 | unloaded or taken label: an error and no change; otherwise the label maps to a token carrying the new secret, the lookup set gains that secret, the file is persisted, and a write failure is reported while the insertion is kept |
| TokenStores.TokenStore.Rescind | src/tokens/token_store.rs:104-115 | unloaded or unknown label: an error and no change; otherwise only that label is removed, the lookup set is rebuilt and the file persisted |
| TokenStores.TokenStore.Iter | src/tokens/token_store.rs:117-122 | fails on an unloaded store; otherwise yields exactly the stored tokens, one per label |
| SimpleServer.AsStr | src/simple_server.rs:14-20 | each response is an HTTP/1.1 status line with code 200 or 401, ended by the empty line that closes the headers |
| SimpleServer.StopIndex | src/simple_server.rs:80-97 | the scan moves past every read before this position, and stops at the read there |
| SimpleServer.ExtractAuthToken | src/simple_server.rs:78-99 | the header loop returns the credential, absence or error that the first non-plain read decides |
| SimpleServer.ScanFindsBearer | src/simple_server.rs:83-85 | the first bearer line before any empty line or failed read yields its remainder as the credential |
| SimpleServer.ScanStopsAtEmptyLine | src/simple_server.rs:86-88 | an empty line before any bearer line ends the scan with no credential |
| SimpleServer.ScanFailsOnReadError | src/simple_server.rs:90-95 | a timeout or read error before any bearer or empty line is an error, distinguished by kind |
| SimpleServer.ScanExhausted | src/simple_server.rs:80-98 | input that ends after plain header lines yields no credential |
| SimpleServer.ScanIgnoresLaterReads | src/simple_server.rs:80-97 | nothing read after the scan stops changes its result |
| SimpleServer.ScanSkipsPlainLine | src/simple_server.rs:80-89 | a plain header line in front of the connection does not change the scan's result |
| SimpleServer.ScanIsCaseSensitive | src/simple_server.rs:83 | a lower-case `authorization: bearer` line, whatever follows it, is skipped like any other header and yields no credential |
| SimpleServer.ServeConnection | src/simple_server.rs:61-76 | a scan error ends the connection with no response; no credential gives 401 without consulting the store; an unloaded store is an error; with a loaded store the response to a credential is 200 when it is a stored secret and 401 when it is not, written or failing with the write; 200 is written exactly when the credential is a stored secret and the write succeeds |
| Cli.MaskSecret | src/main.rs:121-123 | the mask is as long as the secret, all `*` except the last four characters, which are the secret's own |
| Cli.ShortSecretShown | src/main.rs:121-123 | a secret of at most four characters is listed unmasked |
| Cli.MaskHidesPrefix | src/main.rs:121-123 | two secrets of one length that agree on their last four characters mask identically |

## Left out

- Networking: binding, the accept loop, logging of per-connection failures,
  and the host name (`src/simple_server.rs:33-59`) are not modelled. A
  connection is the sequence of its line reads, and the outcome of the
  response write is the parameter `writeSucceeds`. A failing
  `set_write_timeout` counts as a failed write.
- SimpleServer.ServeConnection: a failing `set_read_timeout` (line 62) is not
  modelled. The deadline itself appears only as a `TimedOut` read. Whether a
  platform reports an expired read timeout as `TimedOut` or as another I/O
  error is not modelled either; both end the connection without a response.
- Line splitting: the model takes a connection and a file as already split
  into lines. The CR/LF handling of `BufRead::lines` and invalid UTF-8 are
  not modelled. A persisted line is taken to come back as one line, which
  holds only when neither field contains a line feed. The round-trip lemmas
  therefore require `Storable` tokens.
- TokenStores.TokenStore.Create: the secret is a parameter, because
  `Uuid::new_v4` is randomness. The model does not claim that secrets are
  unique or in UUID format.
- File I/O: the file is a `BackingFile` object holding what opening and
  reading it would yield. How the disk fails during one persist is the
  parameter `DiskBehaviour`. Permissions, paths, partial lines and
  concurrent writers are not modelled.
- TokenStores.TokenStore.PersistToFile: the order in which a `HashMap` yields
  its values is not modelled. The file is stated to list the tokens in some
  order. `BufWriter` buffering is not modelled either: in the code a failed
  write may go unreported and surface only when the writer is dropped, and
  that error is ignored.
- Concurrency: the server handles one connection at a time, and no
  concurrent access to the store is modelled.
- Cli.MaskSecret: the model assumes ASCII secrets, where bytes and
  characters coincide. The code counts and slices bytes, and would panic when
  slicing inside a multi-byte character.
- The rest of `src/main.rs` is not part of this model: argument parsing,
  printing, the table layout and the banner text.
