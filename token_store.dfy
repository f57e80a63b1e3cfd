/** The `TokenStore` of `src/tokens/token_store.rs`: the authoritative map from
    label to token, the lookup set of secrets derived from it, and the file
    that backs it. The file is an object the store refers to (the Rust
    `&Path`), holding what opening and reading it would yield. */
module TokenStores {
  import opened Results
  import opened Tokens

  /** One item of `BufRead::lines`: a line's text, or a read failure. */
  datatype LineRead = Line(text: string) | Unreadable

  /** What `File::open` followed by `lines()` finds at the store's path. */
  datatype FileContents = NotFound | Unopenable | Present(lines: seq<LineRead>)

  /** How the disk behaves during one `persist_to_file`: `File::create`
      fails, or the write of the line after the first `count` lines fails. */
  datatype DiskBehaviour = Healthy | CreateFails | WriteFailsAfter(count: nat)

  datatype StoreError =
    | NotLoaded               // the store has no map yet
    | OpenFailed              // the file exists but cannot be opened
    | ReadFailed              // a line of the file cannot be read
    | Malformed(line: string) // a line of the file does not parse
    | DuplicateLabel          // create: the label is taken
    | UnknownLabel            // rescind: no token has the label
    | WriteFailed             // persisting the store failed

  type TokenMap = map<string, Token>

  /** Every key of the map is the label of the token stored under it. */
  predicate KeysMatchLabels(m: TokenMap) {
    forall k :: k in m ==> m[k].name == k
  }

  /** The lookup set derived from a map: the secrets of all its tokens. */
  function Secrets(m: TokenMap): set<string> {
    set t | t in m.Values :: t.secret
  }

  /** What `reload` makes of one line: the token it parses to, or the error
      that aborts the reload (an unreadable line, a line without `:`). */
  function ReadToken(rd: LineRead): (r: Result<Token, StoreError>)
    ensures r.Err? <==> rd.Unreadable? || Separator !in rd.text
  {
    match rd
    case Unreadable => Err(ReadFailed)
    case Line(text) =>
      match Parse(text)
      case Ok(t) => Ok(t)
      case Err(_) => Err(Malformed(text))
  }

  /** The per-line results of reading the file, in order. */
  function ReadTokens(lines: seq<LineRead>): seq<Result<Token, StoreError>> {
    seq(|lines|, i requires 0 <= i < |lines| => ReadToken(lines[i]))
  }

  lemma ReadTokenAt(lines: seq<LineRead>, i: nat)
    requires i < |lines|
    ensures |ReadTokens(lines)| == |lines| && ReadTokens(lines)[i] == ReadToken(lines[i])
  {
  }

  lemma ReadTokensAt(lines: seq<LineRead>)
    ensures |ReadTokens(lines)| == |lines|
    ensures forall i :: 0 <= i < |lines| ==> ReadTokens(lines)[i] == ReadToken(lines[i])
  {
  }

  predicate HasLabel(item: Result<Token, StoreError>, tokenLabel: string) {
    item.Ok? && item.value.name == tokenLabel
  }

  /** The loop of `reload`: each token is inserted under its label in turn,
      so a later token replaces an earlier one with the same label; the first
      error aborts the whole load. */
  function Collect(items: seq<Result<Token, StoreError>>): (r: Result<TokenMap, StoreError>)
    ensures r.Ok? ==> KeysMatchLabels(r.value)
  {
    if items == [] then Ok(map[])
    else
      match Collect(items[..|items| - 1])
      case Err(e) => Err(e)
      case Ok(m) =>
        match items[|items| - 1]
        case Err(e) => Err(e)
        case Ok(t) => Ok(m[t.name := t])
  }

  /** The map `reload` builds from the lines of the file. */
  function Load(lines: seq<LineRead>): Result<TokenMap, StoreError> {
    Collect(ReadTokens(lines))
  }

  /** What `reload` makes of each outcome of opening the file: a missing
      file is an empty store, any other open failure is an error. */
  function Reloaded(contents: FileContents): Result<TokenMap, StoreError> {
    match contents
    case NotFound => Ok(map[])
    case Unopenable => Err(OpenFailed)
    case Present(lines) => Load(lines)
  }

  /** Once a prefix fails to load, the whole sequence fails in the same way. */
  lemma {:induction false} CollectErrStays(items: seq<Result<Token, StoreError>>, i: nat)
    requires i <= |items| && Collect(items[..i]).Err?
    ensures Collect(items) == Collect(items[..i])
    decreases |items|
  {
    if i < |items| {
      var front := items[..|items| - 1];
      assert front[..i] == items[..i];
      CollectErrStays(front, i);
    } else {
      assert items[..i] == items;
    }
  }

  /** Loading succeeds when every item is a token. */
  lemma {:induction false} CollectSucceedsWhenAllOk(items: seq<Result<Token, StoreError>>)
    requires forall j :: 0 <= j < |items| ==> items[j].Ok?
    ensures Collect(items).Ok?
  {
    if items != [] {
      CollectSucceedsWhenAllOk(items[..|items| - 1]);
    }
  }

  /** Loading fails with the error of the first item that is not a token. */
  lemma CollectFailsAtFirstError(items: seq<Result<Token, StoreError>>, i: nat)
    requires i < |items| && items[i].Err?
    requires forall j :: 0 <= j < i ==> items[j].Ok?
    ensures Collect(items) == Err(items[i].error)
  {
    CollectSucceedsWhenAllOk(items[..i]);
    assert items[..i + 1][..i] == items[..i];
    CollectErrStays(items, i + 1);
  }

  /** `reload` fails exactly when some line cannot be read or has no `:`,
      and then with the error of the first such line. */
  lemma LoadFailsAtFirstBadLine(lines: seq<LineRead>)
    ensures Load(lines).Err? <==> exists i :: 0 <= i < |lines| && ReadToken(lines[i]).Err?
    ensures Load(lines).Err? ==>
              exists i :: 0 <= i < |lines| && ReadToken(lines[i]).Err? && Load(lines) == Err(ReadToken(lines[i]).error)
                          && forall j :: 0 <= j < i ==> ReadToken(lines[j]).Ok?
  {
    var items := ReadTokens(lines);
    ReadTokensAt(lines);
    if i :| 0 <= i < |lines| && items[i].Err? {
      var first := FirstError(items);
      CollectFailsAtFirstError(items, first);
      assert Load(lines) == Err(ReadToken(lines[first]).error);
    } else {
      CollectSucceedsWhenAllOk(items);
    }
  }

  /** The index of the first error, when there is one. */
  function FirstError(items: seq<Result<Token, StoreError>>): (i: nat)
    requires exists i :: 0 <= i < |items| && items[i].Err?
    ensures i < |items| && items[i].Err? && forall j :: 0 <= j < i ==> items[j].Ok?
  {
    if items[0].Err? then 0
    else
      assert exists i :: 0 <= i < |items[1..]| && items[1..][i].Err? by {
        var i :| 0 <= i < |items| && items[i].Err?;
        assert items[1..][i - 1] == items[i];
      }
      1 + FirstError(items[1..])
  }

  /** One step of a successful load: the items before the last one load,
      and the last token is inserted under its label. */
  lemma CollectStep(items: seq<Result<Token, StoreError>>)
    requires items != [] && Collect(items).Ok?
    ensures Collect(items[..|items| - 1]).Ok? && items[|items| - 1].Ok?
    ensures var t := items[|items| - 1].value;
            Collect(items).value == Collect(items[..|items| - 1]).value[t.name := t]
  {
  }

  /** One more token extends a successful load by inserting it under its label. */
  lemma CollectExtend(items: seq<Result<Token, StoreError>>, i: nat, m: TokenMap)
    requires i < |items| && Collect(items[..i]) == Ok(m) && items[i].Ok?
    ensures Collect(items[..i + 1]) == Ok(m[items[i].value.name := items[i].value])
  {
    assert items[..i + 1][..i] == items[..i];
  }

  /** After a successful load every item is a token whose label is a key. */
  lemma {:induction false} CollectCoversItems(items: seq<Result<Token, StoreError>>)
    requires Collect(items).Ok?
    ensures forall i :: 0 <= i < |items| ==> items[i].Ok? && items[i].value.name in Collect(items).value
  {
    if items != [] {
      var n := |items| - 1;
      var front := items[..n];
      CollectStep(items);
      CollectCoversItems(front);
      forall i | 0 <= i < n
        ensures items[i].Ok? && items[i].value.name in Collect(items).value
      {
        assert items[i] == front[i];
      }
    }
  }

  /** After a successful load each key holds the last token carrying that label. */
  lemma {:induction false} CollectLastWins(items: seq<Result<Token, StoreError>>)
    requires Collect(items).Ok?
    ensures forall k :: k in Collect(items).value ==>
              exists i :: 0 <= i < |items| && items[i] == Ok(Collect(items).value[k])
                          && forall j :: i < j < |items| ==> !HasLabel(items[j], k)
  {
    if items != [] {
      var n := |items| - 1;
      var front := items[..n];
      CollectStep(items);
      CollectLastWins(front);
      var m' := Collect(front).value;
      var t := items[n].value;
      var m := Collect(items).value;
      forall k | k in m
        ensures exists i :: 0 <= i < |items| && items[i] == Ok(m[k])
                            && forall j :: i < j < |items| ==> !HasLabel(items[j], k)
      {
        if k == t.name {
          assert items[n] == Ok(m[k]);
        } else {
          var i :| 0 <= i < n && front[i] == Ok(m'[k])
                   && forall j :: i < j < n ==> !HasLabel(front[j], k);
          assert items[i] == front[i];
          forall j | i < j < |items|
            ensures !HasLabel(items[j], k)
          {
            if j < n {
              assert items[j] == front[j];
            }
          }
        }
      }
    }
  }

  /** After a successful `reload` every line's label is a key, and each key
      holds the token of the last line carrying that label. */
  lemma LoadLastLineWins(lines: seq<LineRead>)
    requires Load(lines).Ok?
    ensures forall i :: 0 <= i < |lines| ==> ReadToken(lines[i]).Ok? && ReadToken(lines[i]).value.name in Load(lines).value
    ensures forall k :: k in Load(lines).value ==>
              exists i :: 0 <= i < |lines| && ReadToken(lines[i]) == Ok(Load(lines).value[k])
                          && forall j :: i < j < |lines| ==> !HasLabel(ReadToken(lines[j]), k)
  {
    var items := ReadTokens(lines);
    ReadTokensAt(lines);
    CollectCoversItems(items);
    CollectLastWins(items);
  }

  /** The lines `persist_to_file` writes for the tokens `ts`, in that order. */
  function Listing(ts: seq<Token>): seq<LineRead> {
    seq(|ts|, i requires 0 <= i < |ts| => Line(Serialise(ts[i])))
  }

  predicate Distinct(ts: seq<Token>) {
    forall i, j :: 0 <= i < j < |ts| ==> ts[i] != ts[j]
  }

  /** The file holds one line for each of some distinct tokens of `m`. */
  ghost predicate ListsPart(lines: seq<LineRead>, m: TokenMap) {
    exists ts :: Distinct(ts) && (forall t :: t in ts ==> t in m.Values) && lines == Listing(ts)
  }

  /** The file holds exactly one line for each token of `m`, in some order. */
  ghost predicate ListsAll(lines: seq<LineRead>, m: TokenMap) {
    exists ts :: Distinct(ts) && (forall t :: t in ts <==> t in m.Values) && lines == Listing(ts)
  }

  /** Whether `persist_to_file` gets through writing `n` lines. */
  predicate WriteCompletes(disk: DiskBehaviour, n: nat) {
    disk.Healthy? || (disk.WriteFailsAfter? && n <= disk.count)
  }

  /** The file `persist_to_file` leaves behind when writing `m`: untouched if
      it cannot be created, truncated and then listing every token if all
      writes succeed, listing only the first `count` tokens if one fails. */
  ghost predicate Persisted(disk: DiskBehaviour, before: FileContents, after: FileContents, m: TokenMap, ok: bool) {
    if disk.CreateFails? then !ok && after == before
    else if WriteCompletes(disk, |m|) then ok && after.Present? && ListsAll(after.lines, m)
    else !ok && after.Present? && |after.lines| == disk.count && ListsPart(after.lines, m)
  }

  /** Adding a token under a fresh key adds exactly that token to the values. */
  lemma ValuesAfterInsert(m: TokenMap, key: string, t: Token)
    requires key !in m
    ensures m[key := t].Values == m.Values + {t}
  {
    var m' := m[key := t];
    forall u | u in m'.Values ensures u in m.Values + {t} {
      var k :| k in m' && m'[k] == u;
      if k != key {
        assert m[k] == u;
      }
    }
    forall u | u in m.Values ensures u in m'.Values {
      var k :| k in m && m[k] == u;
      assert m'[k] == u;
    }
    assert m'[key] == t;
  }

  /** Under matching keys and labels, distinct keys hold distinct tokens, so
      the map has as many tokens as keys. */
  lemma {:induction false} ValuesCount(m: TokenMap)
    requires KeysMatchLabels(m)
    ensures |m.Values| == |m|
    decreases |m|
  {
    if m != map[] {
      var k :| k in m;
      var rest := m - {k};
      assert rest.Keys == m.Keys - {k};
      ValuesCount(rest);
      assert m == rest[k := m[k]];
      ValuesAfterInsert(rest, k, m[k]);
      assert m[k] !in rest.Values;
    }
  }

  /** Adding a token under a fresh label adds exactly its secret to the lookup set. */
  lemma SecretsAfterInsert(m: TokenMap, tokenLabel: string, t: Token)
    requires tokenLabel !in m
    ensures Secrets(m[tokenLabel := t]) == Secrets(m) + {t.secret}
  {
    ValuesAfterInsert(m, tokenLabel, t);
  }

  /** Removing a label keeps the secret of every other token in the lookup
      set; the removed secret stays exactly when another token shares it. */
  lemma SecretsAfterRemove(m: TokenMap, tokenLabel: string)
    requires tokenLabel in m
    ensures forall k :: k in m && k != tokenLabel ==> m[k].secret in Secrets(m - {tokenLabel})
    ensures m[tokenLabel].secret in Secrets(m - {tokenLabel}) <==>
              exists k :: k in m && k != tokenLabel && m[k].secret == m[tokenLabel].secret
  {
    var m' := m - {tokenLabel};
    forall k | k in m && k != tokenLabel ensures m[k].secret in Secrets(m') {
      assert m'[k] in m'.Values;
    }
    if m[tokenLabel].secret in Secrets(m') {
      var u :| u in m'.Values && u.secret == m[tokenLabel].secret;
      var k :| k in m' && m'[k] == u;
      assert k in m && k != tokenLabel && m[k].secret == m[tokenLabel].secret;
    }
  }

  /** The part of `m` whose tokens occur in `ts`. */
  ghost function Covered(m: TokenMap, ts: seq<Token>): TokenMap {
    map k | k in m && m[k] in ts :: m[k]
  }

  lemma CoveredStep(m: TokenMap, ts: seq<Token>, t: Token)
    requires KeysMatchLabels(m) && t in m.Values
    ensures Covered(m, ts + [t]) == Covered(m, ts)[t.name := t]
  {
    var k0 :| k0 in m && m[k0] == t;
    assert Covered(m, ts + [t]).Keys == Covered(m, ts)[t.name := t].Keys;
  }

  /** A token whose line survives being written and read back: well formed,
      and neither field holds the line feed that `lines()` splits on. */
  predicate Storable(t: Token) {
    WellFormed(t) && '\n' !in t.name && '\n' !in t.secret
  }

  /** Round trip: reloading the lines a persist wrote gives back the map,
      when its keys are its labels and every token is storable. */
  lemma ReloadPersisted(m: TokenMap, lines: seq<LineRead>)
    requires KeysMatchLabels(m) && forall k :: k in m ==> Storable(m[k])
    requires ListsAll(lines, m)
    ensures Load(lines) == Ok(m)
  {
    var ts :| Distinct(ts) && (forall t :: t in ts <==> t in m.Values) && lines == Listing(ts);
    LoadListing(m, ts);
    CoveredAll(m, ts);
  }

  lemma CoveredAll(m: TokenMap, ts: seq<Token>)
    requires forall t :: t in m.Values ==> t in ts
    ensures Covered(m, ts) == m
  {
    forall k | k in m ensures m[k] in ts {
      assert m[k] in m.Values;
    }
  }

  /** The items of lines that all parse, to the tokens `ts`. */
  function AllRead(ts: seq<Token>): (items: seq<Result<Token, StoreError>>)
    ensures |items| == |ts|
  {
    seq(|ts|, i requires 0 <= i < |ts| => Ok(ts[i]))
  }

  lemma {:induction false} CollectListed(m: TokenMap, ts: seq<Token>)
    requires KeysMatchLabels(m)
    requires forall t :: t in ts ==> t in m.Values
    ensures Collect(AllRead(ts)) == Ok(Covered(m, ts))
  {
    var items := AllRead(ts);
    if ts == [] {
      assert Covered(m, ts) == map[];
    } else {
      var n := |ts| - 1;
      var t := ts[n];
      assert items[..n] == AllRead(ts[..n]);
      CollectListed(m, ts[..n]);
      assert ts[..n] + [t] == ts;
      CoveredStep(m, ts[..n], t);
    }
  }

  lemma LoadListing(m: TokenMap, ts: seq<Token>)
    requires KeysMatchLabels(m) && forall k :: k in m ==> Storable(m[k])
    requires forall t :: t in ts ==> t in m.Values
    ensures Load(Listing(ts)) == Ok(Covered(m, ts))
  {
    ReadTokensAt(Listing(ts));
    forall i | 0 <= i < |ts| ensures ReadTokens(Listing(ts))[i] == Ok(ts[i]) {
      assert ts[i] in ts && ts[i] in m.Values;
      var k :| k in m && m[k] == ts[i];
      ParseSerialise(ts[i]);
    }
    assert ReadTokens(Listing(ts)) == AllRead(ts);
    CollectListed(m, ts);
  }

  /** The file the store persists to; only its contents matter here. */
  class BackingFile {
    var contents: FileContents

    constructor (contents: FileContents)
      ensures this.contents == contents
    {
      this.contents := contents;
    }
  }

  class TokenStore {
    const file: BackingFile
    var tokens: Option<TokenMap>
    var tokenLookup: Option<set<string>>

    /** The lookup set is loaded exactly when the map is, and is then the
        set of the map's secrets; keys are the labels of their tokens. */
    ghost predicate Valid()
      reads this
    {
      match tokens
      case None => tokenLookup == None
      case Some(m) => tokenLookup == Some(Secrets(m)) && KeysMatchLabels(m)
    }

    /** The struct `new` starts from, before its first reload. */
    constructor Unloaded(file: BackingFile)
      ensures Valid() && this.file == file
      ensures tokens == None && tokenLookup == None
    {
      this.file := file;
      tokens := None;
      tokenLookup := None;
    }

    /** `TokenStore::new`: an unloaded store, reloaded once. Parent directories
        are not created. */
    static method New(file: BackingFile) returns (r: Result<TokenStore, StoreError>)
      ensures r.Ok? <==> Reloaded(file.contents).Ok?
      ensures r.Err? ==> r.error == Reloaded(file.contents).error
      ensures r.Ok? ==> fresh(r.value) && r.value.Valid() && r.value.file == file
                        && r.value.tokens == Some(Reloaded(file.contents).value)
    {
      var store := new TokenStore.Unloaded(file);
      var loaded := store.Reload();
      if loaded.Fail? {
        return Err(loaded.error);
      }
      r := Ok(store);
    }

    /** `reload`: the map and lookup set become what the file holds; if the
        file cannot be opened or one of its lines cannot be read or parsed,
        the call fails and both keep their previous values. */
    method Reload() returns (r: Outcome<StoreError>)
      requires Valid()
      modifies this
      ensures Valid()
      ensures Reloaded(file.contents).Ok? ==>
                r == Pass && tokens == Some(Reloaded(file.contents).value)
      ensures file.contents.NotFound? ==> tokenLookup == Some({})
      ensures Reloaded(file.contents).Err? ==>
                r == Fail(Reloaded(file.contents).error)
                && tokens == old(tokens) && tokenLookup == old(tokenLookup)
    {
      var lines;
      match file.contents {
        case NotFound =>
          tokens := Some(map[]);
          tokenLookup := Some({});
          assert Secrets(map[]) == {};
          return Pass;
        case Unopenable =>
          return Fail(OpenFailed);
        case Present(ls) =>
          lines := ls;
      }
      // Lines are parsed into a local map, committed only once all of them parse.
      var tokenMap: TokenMap := map[];
      ghost var items := ReadTokens(lines);
      for i := 0 to |lines|
        invariant tokens == old(tokens) && tokenLookup == old(tokenLookup)
        invariant Collect(items[..i]) == Ok(tokenMap)
      {
        ReadTokenAt(lines, i);
        match lines[i] {
          case Unreadable =>
            assert items[..i + 1][..i] == items[..i];
            CollectErrStays(items, i + 1);
            return Fail(ReadFailed);
          case Line(text) =>
            var parsed := Parse(text);
            if parsed.Err? {
              assert items[..i + 1][..i] == items[..i];
              assert items[i] == Err(Malformed(text));
              CollectErrStays(items, i + 1);
              return Fail(Malformed(text));
            }
            CollectExtend(items, i, tokenMap);
            tokenMap := tokenMap[parsed.value.name := parsed.value];
        }
      }
      assert items[..|lines|] == items;
      tokens := Some(tokenMap);
      var rebuilt := RebuildTokenLookup();
      r := Pass;
    }

    /** `rebuild_token_lookup`: the lookup set becomes the secrets of the map. */
    method RebuildTokenLookup() returns (r: Outcome<StoreError>)
      modifies this`tokenLookup
      ensures tokens.None? ==> r == Fail(NotLoaded) && tokenLookup == old(tokenLookup)
      ensures tokens.Some? ==> r == Pass && tokenLookup == Some(Secrets(tokens.value))
    {
      if tokens.None? {
        return Fail(NotLoaded);
      }
      var m := tokens.value;
      var lookup: set<string> := {};
      var remaining := m.Values;
      while remaining != {}
        invariant remaining <= m.Values
        invariant lookup == set t | t in m.Values - remaining :: t.secret
        decreases remaining
      {
        var t :| t in remaining;
        lookup := lookup + {t.secret};
        remaining := remaining - {t};
      }
      assert m.Values - remaining == m.Values;
      tokenLookup := Some(lookup);
      r := Pass;
    }

    /** `persist_to_file`: truncates the file and writes one line per token,
        in no particular order; an unloaded store writes an empty file. */
    method PersistToFile(disk: DiskBehaviour) returns (r: Outcome<StoreError>)
      requires Valid()
      modifies file
      ensures r.Fail? ==> r.error == WriteFailed
      ensures Persisted(disk, old(file.contents), file.contents,
                        if tokens.Some? then tokens.value else map[], r.Pass?)
    {
      if disk.CreateFails? {
        return Fail(WriteFailed);
      }
      file.contents := Present([]);
      var m: TokenMap := if tokens.Some? then tokens.value else map[];
      ValuesCount(m);
      var remaining := m.Values;
      var written := 0;
      ghost var ts: seq<Token> := [];
      while remaining != {}
        invariant remaining <= m.Values
        invariant written == |ts| && written + |remaining| == |m|
        invariant disk.WriteFailsAfter? ==> written <= disk.count
        invariant Distinct(ts)
        invariant forall t :: t in ts <==> t in m.Values && t !in remaining
        invariant file.contents == Present(Listing(ts))
        decreases remaining
      {
        if disk.WriteFailsAfter? && written == disk.count {
          assert ListsPart(file.contents.lines, m);
          return Fail(WriteFailed);
        }
        var t :| t in remaining;
        assert Listing(ts + [t]) == Listing(ts) + [Line(Serialise(t))];
        file.contents := Present(file.contents.lines + [Line(Serialise(t))]);
        ts := ts + [t];
        written := written + 1;
        remaining := remaining - {t};
      }
      r := Pass;
    }

    /** `contains_token`: fails on an unloaded store; otherwise tells whether
        some token of the store has this secret. */
    function ContainsToken(secret: string): (r: Result<bool, StoreError>)
      reads this
      requires Valid()
      ensures tokens.None? <==> r == Err(NotLoaded)
      ensures tokens.Some? ==> r == Ok(exists tokenLabel :: tokenLabel in tokens.value && tokens.value[tokenLabel].secret == secret)
    {
      match tokenLookup
      case None => Err(NotLoaded)
      case Some(lookup) =>
        assert secret in lookup ==> exists t :: t in tokens.value.Values && t.secret == secret;
        Ok(secret in lookup)
    }

    /** `create`: a taken label is refused and nothing changes; otherwise the
        label maps to a new token carrying `secret`, the lookup set gains the
        secret, the store is persisted and the new token returned. A failed
        persist keeps the in-memory insertion. */
    method Create(tokenLabel: string, secret: string, disk: DiskBehaviour) returns (r: Result<Token, StoreError>)
      requires Valid()
      modifies this, file
      ensures Valid()
      ensures old(tokens).None? ==>
                r == Err(NotLoaded) && tokens == old(tokens) && tokenLookup == old(tokenLookup)
                && file.contents == old(file.contents)
      ensures old(tokens).Some? && tokenLabel in old(tokens).value ==>
                r == Err(DuplicateLabel) && tokens == old(tokens) && tokenLookup == old(tokenLookup)
                && file.contents == old(file.contents)
      ensures old(tokens).Some? && tokenLabel !in old(tokens).value ==>
                && tokens == Some(old(tokens).value[tokenLabel := Token(tokenLabel, secret)])
                && tokenLookup == Some(old(tokenLookup).value + {secret})
                && Persisted(disk, old(file.contents), file.contents, tokens.value, r.Ok?)
                && (r.Ok? ==> r.value == Token(tokenLabel, secret))
                && (r.Err? ==> r.error == WriteFailed)
    {
      if tokens.None? {
        return Err(NotLoaded);
      }
      if tokenLabel in tokens.value {
        return Err(DuplicateLabel);
      }
      var newToken := Token(tokenLabel, secret);
      SecretsAfterInsert(tokens.value, tokenLabel, newToken);
      tokens := Some(tokens.value[tokenLabel := newToken]);
      var rebuilt := RebuildTokenLookup();
      var persisted := PersistToFile(disk);
      if persisted.Fail? {
        return Err(persisted.error);
      }
      r := Ok(newToken);
    }

    /** `rescind`: an unknown label is refused and nothing changes; otherwise
        only that label is removed, the lookup set is rebuilt and the store
        persisted. A failed persist keeps the in-memory removal. */
    method Rescind(tokenLabel: string, disk: DiskBehaviour) returns (r: Outcome<StoreError>)
      requires Valid()
      modifies this, file
      ensures Valid()
      ensures old(tokens).None? ==>
                r == Fail(NotLoaded) && tokens == old(tokens) && tokenLookup == old(tokenLookup)
                && file.contents == old(file.contents)
      ensures old(tokens).Some? && tokenLabel !in old(tokens).value ==>
                r == Fail(UnknownLabel) && tokens == old(tokens) && tokenLookup == old(tokenLookup)
                && file.contents == old(file.contents)
      ensures old(tokens).Some? && tokenLabel in old(tokens).value ==>
                && tokens == Some(old(tokens).value - {tokenLabel})
                && tokenLookup == Some(Secrets(tokens.value))
                && Persisted(disk, old(file.contents), file.contents, tokens.value, r.Pass?)
                && (r.Fail? ==> r.error == WriteFailed)
    {
      if tokens.None? {
        return Fail(NotLoaded);
      }
      if tokenLabel !in tokens.value {
        return Fail(UnknownLabel);
      }
      tokens := Some(tokens.value - {tokenLabel});
      var rebuilt := RebuildTokenLookup();
      r := PersistToFile(disk);
    }

    /** `iter`: fails on an unloaded store; otherwise the tokens of the map,
        one per label. */
    method Iter() returns (r: Result<set<Token>, StoreError>)
      requires Valid()
      ensures tokens.None? ==> r == Err(NotLoaded)
      ensures tokens.Some? ==> r.Ok? && r.value == tokens.value.Values && |r.value| == |tokens.value|
    {
      if tokens.None? {
        return Err(NotLoaded);
      }
      ValuesCount(tokens.value);
      r := Ok(tokens.value.Values);
    }
  }
}
