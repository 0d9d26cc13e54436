/**
  Go's `[]byte` and the byte-indexed view of a Go `string`.  The link rewriter
  indexes its buffer byte by byte, so page bodies are modelled as sequences of
  bytes rather than as sequences of characters.
 */
module ByteStrings {

  import opened Wrappers

  newtype byte = x: int | 0 <= x < 256

  type Bytes = seq<byte>

  const OpenBracket: byte := 91   // '['
  const CloseBracket: byte := 93  // ']'
  const Backslash: byte := 92     // '\\'

  /** The number of `]` bytes in `s`. */
  function CloseCount(s: Bytes): nat {
    if s == [] then 0
    else (if s[0] == CloseBracket then 1 else 0) + CloseCount(s[1..])
  }

  lemma {:induction false} CloseCountConcat(a: Bytes, b: Bytes)
    ensures CloseCount(a + b) == CloseCount(a) + CloseCount(b)
    decreases |a|
  {
    if a == [] {
      assert a + b == b;
    } else {
      assert (a + b)[1..] == a[1..] + b;
      CloseCountConcat(a[1..], b);
    }
  }

  lemma {:induction false} CloseCountAbsent(s: Bytes)
    requires CloseBracket !in s
    ensures CloseCount(s) == 0
    decreases |s|
  {
    if s != [] {
      assert s[0] != CloseBracket;
      CloseCountAbsent(s[1..]);
    }
  }

  /** `pat` occurs in `s` starting at index `k`. */
  predicate OccursAt(s: Bytes, pat: Bytes, k: int) {
    0 <= k && k + |pat| <= |s| && s[k..k + |pat|] == pat
  }

  /**
    The index of the leftmost occurrence of `pat` in `s` at or after `from`
    (Go's `strings.Index` applied to `s[from:]`, shifted back by `from`).
   */
  function FirstIndexFrom(s: Bytes, pat: Bytes, from: nat): (r: Option<nat>)
    ensures r.Some? ==> from <= r.value && OccursAt(s, pat, r.value)
    ensures r.Some? ==> forall m :: from <= m < r.value ==> !OccursAt(s, pat, m)
    ensures r.None? ==> forall m :: from <= m ==> !OccursAt(s, pat, m)
    decreases |s| - from
  {
    if from + |pat| > |s| then None
    else if s[from..from + |pat|] == pat then Some(from)
    else FirstIndexFrom(s, pat, from + 1)
  }

  /**
    Go's `strings.Replace(s, pat, repl, 1)`: the leftmost occurrence of `pat`
    is replaced by `repl`; without an occurrence `s` is returned as it is.
   */
  function ReplaceFirst(s: Bytes, pat: Bytes, repl: Bytes): (r: Bytes)
    ensures (forall m :: !OccursAt(s, pat, m)) ==> r == s
    ensures (exists m :: OccursAt(s, pat, m)) ==> |r| + |pat| == |s| + |repl|
  {
    match FirstIndexFrom(s, pat, 0)
    case None => s
    case Some(k) => s[..k] + repl + s[k + |pat|..]
  }

  /** The occurrence that `ReplaceFirst` replaces is the leftmost one. */
  lemma ReplaceFirstLeftmost(s: Bytes, pat: Bytes, repl: Bytes, k: nat)
    requires OccursAt(s, pat, k)
    requires forall m :: 0 <= m < k ==> !OccursAt(s, pat, m)
    ensures ReplaceFirst(s, pat, repl) == s[..k] + repl + s[k + |pat|..]
  {
    assert FirstIndexFrom(s, pat, 0) == Some(k);
  }
}
