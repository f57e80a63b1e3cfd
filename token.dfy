/** The `Token` entity of `src/tokens/token.rs`: a `(label, secret)` pair, its
    one-line textual form `label:secret`, and the parser that reads that form
    back (split on the first `:`, trim both halves). */
module Tokens {
  import opened Results

  /** A bearer token: `name` is the human-chosen label, `secret` the opaque credential. */
  datatype Token = Token(name: string, secret: string)

  /** The only way parsing fails: the line has no separator. */
  datatype ParseError = ImproperlySegmented

  const Separator: char := ':'

  /** Rust's `char::is_whitespace`: the Unicode White_Space property. */
  predicate IsWhitespace(c: char) {
    || ('\t' <= c <= '\r')
    || c == ' '
    || c == '\U{85}'
    || c == '\U{A0}'
    || c == '\U{1680}'
    || ('\U{2000}' <= c <= '\U{200A}')
    || c == '\U{2028}'
    || c == '\U{2029}'
    || c == '\U{202F}'
    || c == '\U{205F}'
    || c == '\U{3000}'
  }

  predicate AllWhitespace(s: string) {
    forall i :: 0 <= i < |s| ==> IsWhitespace(s[i])
  }

  /** Neither end of `s` is whitespace. */
  predicate IsTrimmed(s: string) {
    s == [] || (!IsWhitespace(s[0]) && !IsWhitespace(s[|s| - 1]))
  }

  /** `r` is `s` with a whitespace-only head and a whitespace-only tail cut off. */
  ghost predicate StripsTo(s: string, r: string) {
    exists a, b :: 0 <= a <= b <= |s| && r == s[a..b] && AllWhitespace(s[..a]) && AllWhitespace(s[b..])
  }

  /** The position of the first non-whitespace character at or after `i`,
      or `|s|` when there is none: where `str::trim` starts its result. */
  function SkipLeading(s: string, i: nat): (j: nat)
    requires i <= |s|
    ensures i <= j <= |s|
    ensures forall k :: i <= k < j ==> IsWhitespace(s[k])
    ensures j == |s| || !IsWhitespace(s[j])
    decreases |s| - i
  {
    if i < |s| && IsWhitespace(s[i]) then SkipLeading(s, i + 1) else i
  }

  /** The position just after the last non-whitespace character before `j`,
      but not below `lo`: where `str::trim` ends its result. */
  function SkipTrailing(s: string, lo: nat, j: nat): (k: nat)
    requires lo <= j <= |s|
    ensures lo <= k <= j
    ensures forall m :: k <= m < j ==> IsWhitespace(s[m])
    ensures k == lo || !IsWhitespace(s[k - 1])
    decreases j
  {
    if lo < j && IsWhitespace(s[j - 1]) then SkipTrailing(s, lo, j - 1) else j
  }

  /** `str::trim`: the result has no surrounding whitespace and is what is
      left of `s` once its leading and trailing whitespace are removed. */
  function Trim(s: string): (r: string)
    ensures IsTrimmed(r)
    ensures StripsTo(s, r)
  {
    var a := SkipLeading(s, 0);
    var b := SkipTrailing(s, a, |s|);
    assert AllWhitespace(s[..a]) && AllWhitespace(s[b..]);
    s[a..b]
  }

  /** Trimming text that has no surrounding whitespace changes nothing. */
  lemma TrimOfTrimmed(s: string)
    requires IsTrimmed(s)
    ensures Trim(s) == s
  {
    assert SkipLeading(s, 0) == 0;
    assert s[0..|s|] == s;
  }

  /** Trimming removes characters and never adds one. */
  lemma TrimKeepsOut(s: string, c: char)
    requires c !in s
    ensures c !in Trim(s)
  {
    var a := SkipLeading(s, 0);
    var b := SkipTrailing(s, a, |s|);
    forall k | 0 <= k < |Trim(s)| ensures Trim(s)[k] != c {
      assert Trim(s)[k] == s[a + k];
    }
  }

  /** `str::splitn(2, sep)`: `None` when `sep` does not occur (a single part),
      otherwise the text before the first `sep` and everything after it. */
  function SplitOnce(s: string, sep: char): (r: Option<(string, string)>)
    ensures r.None? <==> sep !in s
    ensures r.Some? ==> s == r.value.0 + [sep] + r.value.1 && sep !in r.value.0
  {
    if s == [] then None
    else if s[0] == sep then Some(([], s[1..]))
    else
      match SplitOnce(s[1..], sep)
      case None => None
      case Some((before, after)) => Some(([s[0]] + before, after))
  }

  /** A split at the first separator is determined by the separator's position:
      any decomposition `before + [sep] + after` whose `before` is free of
      `sep` is the one `SplitOnce` finds. */
  lemma {:induction false} SplitOnceAt(before: string, sep: char, after: string)
    requires sep !in before
    ensures SplitOnce(before + [sep] + after, sep) == Some((before, after))
  {
    var s := before + [sep] + after;
    if before == [] {
      assert s[1..] == after;
    } else {
      assert s[0] == before[0];
      assert s[1..] == before[1..] + [sep] + after;
      SplitOnceAt(before[1..], sep, after);
      assert [before[0]] + before[1..] == before;
    }
  }

  /** `Token::from_str`: split on the first `:` and trim both halves; a line
      without `:` is improperly segmented. */
  function Parse(line: string): (r: Result<Token, ParseError>)
    ensures r.Err? <==> Separator !in line
  {
    match SplitOnce(line, Separator)
    case None => Err(ImproperlySegmented)
    case Some((before, after)) => Ok(Token(Trim(before), Trim(after)))
  }

  /** A parsed token is the trimmed text before the first `:` and the
      trimmed text after it; its label therefore holds no `:`. */
  lemma ParseFields(line: string)
    requires Separator in line
    ensures exists i :: 0 <= i < |line| && line[i] == Separator && Separator !in line[..i]
                        && Parse(line) == Ok(Token(Trim(line[..i]), Trim(line[i + 1..])))
    ensures Separator !in Parse(line).value.name
    ensures IsTrimmed(Parse(line).value.name) && IsTrimmed(Parse(line).value.secret)
  {
    var (before, after) := SplitOnce(line, Separator).value;
    var i := |before|;
    assert line[..i] == before && line[i + 1..] == after;
    TrimKeepsOut(before, Separator);
  }

  /** `impl Display for Token`: the name, the separator and the secret, with no escaping. */
  function Serialise(t: Token): (line: string)
    ensures |line| == |t.name| + 1 + |t.secret| && Separator in line
    ensures Separator !in t.name ==> SplitOnce(line, Separator) == Some((t.name, t.secret))
  {
    var line := t.name + [Separator] + t.secret;
    assert line[|t.name|] == Separator;
    if Separator in t.name then line
    else SplitOnceAt(t.name, Separator, t.secret); line
  }

  /** A token whose line survives a round trip: the label is free of the
      separator and neither field carries surrounding whitespace. */
  predicate WellFormed(t: Token) {
    Separator !in t.name && IsTrimmed(t.name) && IsTrimmed(t.secret)
  }

  /** A serialised token always contains the separator, so it always parses. */
  lemma SerialiseParses(t: Token)
    ensures Parse(Serialise(t)).Ok?
  {
  }

  /** Round trip: a well-formed token comes back unchanged from its line.
      Separators inside the secret are kept. */
  lemma {:induction false} ParseSerialise(t: Token)
    requires WellFormed(t)
    ensures Parse(Serialise(t)) == Ok(t)
  {
    SplitOnceAt(t.name, Separator, t.secret);
    TrimOfTrimmed(t.name);
    TrimOfTrimmed(t.secret);
  }

  /** A label holding the separator does not round-trip: the part after its
      first `:` moves into the secret. */
  lemma LabelWithSeparatorSplits(x: string, y: string, secret: string)
    requires Separator !in x && IsTrimmed(x) && IsTrimmed(y + [Separator] + secret)
    ensures Parse(Serialise(Token(x + [Separator] + y, secret))) == Ok(Token(x, y + [Separator] + secret))
  {
    var rest := y + [Separator] + secret;
    assert Serialise(Token(x + [Separator] + y, secret)) == x + [Separator] + rest;
    SplitOnceAt(x, Separator, rest);
    TrimOfTrimmed(x);
    TrimOfTrimmed(rest);
  }
}
