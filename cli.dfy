/** The secret masking of the `list` subcommand in `src/main.rs`: every
    character but the last four is replaced by `*`. The source counts and
    slices bytes; on ASCII text bytes and characters coincide. */
module Cli {

  predicate IsAscii(s: string) {
    forall i :: 0 <= i < |s| ==> s[i] < '\U{80}'
  }

  /** `usize::saturating_sub`: subtraction that stops at zero. */
  function SaturatingSub(a: nat, b: nat): nat
  {
    if a <= b then 0 else a - b
  }

  /** How many trailing characters of a secret the listing shows. */
  const Shown: nat := 4

  /** The masked form of `secret`: as long as the secret, all `*` except
      the last four characters, which are shown as they are. */
  function MaskSecret(secret: string): (masked: string)
    requires IsAscii(secret)
    ensures |masked| == |secret|
    ensures forall i :: 0 <= i < |secret| - Shown ==> masked[i] == '*'
    ensures forall i :: |secret| - Shown <= i < |secret| && 0 <= i ==> masked[i] == secret[i]
  {
    var hidden := SaturatingSub(|secret|, Shown);
    seq(hidden, _ => '*') + secret[hidden..]
  }

  /** A secret of at most four characters is listed in full. */
  lemma ShortSecretShown(secret: string)
    requires IsAscii(secret) && |secret| <= Shown
    ensures MaskSecret(secret) == secret
  {
    assert MaskSecret(secret) == secret[0..];
  }

  /** The mask reveals only the length and the last four characters: two
      secrets that agree on those are listed identically. */
  lemma {:induction false} MaskHidesPrefix(s: string, t: string)
    requires IsAscii(s) && IsAscii(t) && |s| == |t|
    requires forall i :: |s| - Shown <= i < |s| && 0 <= i ==> s[i] == t[i]
    ensures MaskSecret(s) == MaskSecret(t)
  {
    var ms, mt := MaskSecret(s), MaskSecret(t);
    forall i | 0 <= i < |ms| ensures ms[i] == mt[i] {
      if i < |s| - Shown {
        assert ms[i] == '*' == mt[i];
      } else {
        assert ms[i] == s[i] == t[i] == mt[i];
      }
    }
  }
}
