/**
  The wiki-link rewriter `deepReplacement` (goTest.go:59-73).

  It scans a byte buffer left to right.  At an index `i` holding a `[` that is
  a link start (the guard `i-1 > 0 && body[i-1] != '\\'`, so never at index 0
  or 1), it finds the nearest `]` after `i`, takes the text `T` strictly
  between the two, and replaces the FIRST occurrence of `[T]` in the current
  buffer by `<a href="/view/T">T</a>`.  Scanning then continues at `i + 1` in
  the rewritten buffer.
 */
module LinkRewriter {

  import opened Wrappers
  import opened ByteStrings

  const AnchorOpen: Bytes := [60, 97, 32, 104, 114, 101, 102, 61, 34, 47, 118, 105, 101, 119, 47]  // <a href="/view/
  const AnchorMid: Bytes := [34, 62]                                                               // ">
  const AnchorClose: Bytes := [60, 47, 97, 62]                                                     // </a>

  /** The link markup that replaces `[target]`. */
  function Anchor(target: Bytes): (r: Bytes)
    ensures |r| == |AnchorOpen| + |AnchorMid| + |AnchorClose| + 2 * |target|
    ensures r[|AnchorOpen|..|AnchorOpen| + |target|] == target
    ensures r[|r| - |AnchorClose| - |target|..|r| - |AnchorClose|] == target
  {
    AnchorOpen + target + AnchorMid + target + AnchorClose
  }

  /** The guard at goTest.go:62: a `[` not at index 0 or 1, not preceded by `\`. */
  predicate LinkStart(body: Bytes, i: nat)
    requires i < |body|
    ensures LinkStart(body, i) <==> 2 <= i && body[i] == OpenBracket && body[i - 1] != Backslash
  {
    body[i] == OpenBracket && (i - 1 > 0 && body[i - 1] != Backslash)
  }

  /** The index of the nearest `]` at or after `from` (the inner loop of goTest.go:63-69). */
  function FindClose(body: Bytes, from: nat): (r: Option<nat>)
    ensures r.Some? ==> from <= r.value < |body| && body[r.value] == CloseBracket
    ensures r.Some? ==> forall k :: from <= k < r.value ==> body[k] != CloseBracket
    ensures r.None? ==> forall k :: from <= k < |body| ==> body[k] != CloseBracket
    decreases |body| - from
  {
    if from >= |body| then None
    else if body[from] == CloseBracket then Some(from)
    else FindClose(body, from + 1)
  }

  /**
    The index `j` of the `]` that closes the link starting at `i`, when the
    `[` at `i` is a link start and a `]` follows it.
   */
  function LinkEnd(body: Bytes, i: nat): (r: Option<nat>)
    requires i < |body|
    ensures r.Some? <==> LinkStart(body, i) && exists k :: i < k < |body| && body[k] == CloseBracket
    ensures r.Some? ==> 2 <= i && body[i] == OpenBracket && body[i - 1] != Backslash
    ensures r.Some? ==> i < r.value < |body| && body[r.value] == CloseBracket
    ensures r.Some? ==> forall k :: i < k < r.value ==> body[k] != CloseBracket
  {
    if LinkStart(body, i) then FindClose(body, i + 1) else None
  }

  /** The replacement done at goTest.go:66 for the link `body[i..j+1]`. */
  function ReplaceLink(body: Bytes, i: nat, j: nat): (r: Bytes)
    requires i < j < |body|
    ensures |r| > |body|
  {
    assert OccursAt(body, body[i..j + 1], i);
    ReplaceFirstCount(body, body[i..j + 1], Anchor(body[i + 1..j]));
    ReplaceFirst(body, body[i..j + 1], Anchor(body[i + 1..j]))
  }

  /** The outcome of a scan: the final buffer and the targets of the links made, in order. */
  datatype Scan = Scan(out: Bytes, links: seq<Bytes>)

  /**
    The scan of goTest.go:61-71 from index `i` of the buffer `body` onwards.
    Every replacement removes one `]` and adds none, so the number of links
    made plus the `]` left equals the `]` at the start; each replacement makes
    the buffer longer, so the buffer comes back unchanged exactly when no link
    was made.
   */
  function RewriteFrom(body: Bytes, i: nat): (r: Scan)
    ensures |r.links| + CloseCount(r.out) == CloseCount(body)
    ensures |r.out| >= |body| + |r.links|
    ensures r.out == body <==> r.links == []
    ensures forall t | t in r.links :: CloseBracket !in t
    decreases CloseCount(body), |body| - i
  {
    if i >= |body| then Scan(body, [])
    else match LinkEnd(body, i)
      case None => RewriteFrom(body, i + 1)
      case Some(j) =>
        var next := ReplaceLink(body, i, j);
        LinkTargetShape(body, i, j);
        ReplaceLinkShape(body, i, j);
        var rest := RewriteFrom(next, i + 1);
        Scan(rest.out, [body[i + 1..j]] + rest.links)
  }

  /** The rewritten body that `deepReplacement` returns. */
  function Rewritten(b: Bytes): (r: Bytes)
    ensures |r| >= |b| && CloseCount(r) <= CloseCount(b)
  {
    RewriteFrom(b, 0).out
  }

  /** `FindClose` gives the nearest `]`: any `]` with none before it from `from` on. */
  lemma {:induction false} FindCloseNearest(body: Bytes, from: nat, j: nat)
    requires from <= j < |body| && body[j] == CloseBracket
    requires forall k :: from <= k < j ==> body[k] != CloseBracket
    ensures FindClose(body, from) == Some(j)
    decreases j - from
  {
    if from < j {
      FindCloseNearest(body, from + 1, j);
    }
  }

  /**
    The target of the link `body[i..j+1]` lies strictly between the `[` at `i`
    and the nearest `]` after it, so it holds no `]` (goTest.go:63-65).
   */
  lemma LinkTargetShape(body: Bytes, i: nat, j: nat)
    requires i < |body| && LinkEnd(body, i) == Some(j)
    ensures i < j < |body|
    ensures body[i..j + 1] == [OpenBracket] + body[i + 1..j] + [CloseBracket]
    ensures CloseBracket !in body[i + 1..j]
  {
    var t := body[i + 1..j];
    forall m | 0 <= m < |t| ensures t[m] != CloseBracket {
      assert t[m] == body[i + 1 + m];
    }
  }

  /**
    One replacement, as goTest.go:66 does it: the leftmost occurrence of the
    link token in the buffer, at some index `k <= i`, is replaced by the
    anchor, and the text before and after that occurrence is kept.
   */
  lemma ReplaceLinkLeftmost(body: Bytes, i: nat, j: nat)
    requires i < j < |body|
    ensures FirstIndexFrom(body, body[i..j + 1], 0).Some?
    ensures var tok := body[i..j + 1];
            var k := FirstIndexFrom(body, tok, 0).value;
            && k <= i
            && OccursAt(body, tok, k)
            && ReplaceLink(body, i, j) == body[..k] + Anchor(body[i + 1..j]) + body[k + |tok|..]
  {
    var tok := body[i..j + 1];
    assert OccursAt(body, tok, i);
  }

  /** The token `[T]` of a target without `]` holds one `]`; its anchor holds none. */
  lemma TokenAndAnchorCount(t: Bytes)
    requires CloseBracket !in t
    ensures CloseCount([OpenBracket] + t + [CloseBracket]) == 1
    ensures CloseCount(Anchor(t)) == 0
  {
    CloseCountConcat([OpenBracket] + t, [CloseBracket]);
    CloseCountConcat([OpenBracket], t);
    CloseCountAbsent(t);
    assert CloseBracket !in Anchor(t);
    CloseCountAbsent(Anchor(t));
  }

  /** Putting `mid` between `pre` and `post` adds its `]` to theirs. */
  lemma CloseCountSplice(pre: Bytes, mid: Bytes, post: Bytes)
    ensures CloseCount(pre + mid + post) == CloseCount(pre) + CloseCount(mid) + CloseCount(post)
  {
    CloseCountConcat(pre + mid, post);
    CloseCountConcat(pre, mid);
  }

  /** Replacing an occurrence of `tok` at `k` by `repl` swaps their `]` counts and lengths. */
  lemma SpliceCount(body: Bytes, tok: Bytes, repl: Bytes, k: nat)
    requires OccursAt(body, tok, k)
    ensures CloseCount(body[..k] + repl + body[k + |tok|..]) + CloseCount(tok) == CloseCount(body) + CloseCount(repl)
    ensures |body[..k] + repl + body[k + |tok|..]| + |tok| == |body| + |repl|
  {
    var pre, post := body[..k], body[k + |tok|..];
    assert body == pre + tok + post;
    CloseCountSplice(pre, tok, post);
    CloseCountSplice(pre, repl, post);
  }

  /**
    The token from a `[` at `i` to a `]` at `j`, with no `]` between, holds
    one `]`; its anchor holds none and is longer.
   */
  lemma LinkTokenCount(body: Bytes, i: nat, j: nat)
    requires i < j < |body| && body[i] == OpenBracket && body[j] == CloseBracket
    requires CloseBracket !in body[i + 1..j]
    ensures CloseCount(body[i..j + 1]) == 1
    ensures CloseCount(Anchor(body[i + 1..j])) == 0
    ensures |Anchor(body[i + 1..j])| > |body[i..j + 1]|
  {
    assert body[i..j + 1] == [OpenBracket] + body[i + 1..j] + [CloseBracket];
    TokenAndAnchorCount(body[i + 1..j]);
  }

  /** A replacement that finds its pattern trades the pattern's `]` and length for the replacement's. */
  lemma ReplaceFirstCount(s: Bytes, pat: Bytes, repl: Bytes)
    requires FirstIndexFrom(s, pat, 0).Some?
    ensures CloseCount(ReplaceFirst(s, pat, repl)) + CloseCount(pat) == CloseCount(s) + CloseCount(repl)
    ensures |ReplaceFirst(s, pat, repl)| + |pat| == |s| + |repl|
  {
    SpliceCount(s, pat, repl, FirstIndexFrom(s, pat, 0).value);
  }

  /** Each replacement removes exactly one `]` from the buffer and makes it longer. */
  lemma ReplaceLinkShape(body: Bytes, i: nat, j: nat)
    requires i < j < |body| && body[i] == OpenBracket && body[j] == CloseBracket
    requires CloseBracket !in body[i + 1..j]
    ensures CloseCount(ReplaceLink(body, i, j)) + 1 == CloseCount(body)
    ensures |ReplaceLink(body, i, j)| > |body|
  {
    ReplaceLinkLeftmost(body, i, j);
    LinkTokenCount(body, i, j);
    ReplaceFirstCount(body, body[i..j + 1], Anchor(body[i + 1..j]));
  }

  /**
    The scan from `i` makes no link exactly when no index from `i` on holds
    a link start followed by a `]`.
   */
  lemma {:induction false} NoLinksIff(body: Bytes, i: nat)
    ensures RewriteFrom(body, i).links == [] <==> forall k :: i <= k < |body| ==> LinkEnd(body, k).None?
    decreases |body| - i
  {
    if i < |body| && LinkEnd(body, i).None? {
      NoLinksIff(body, i + 1);
    }
  }

  /**
    `deepReplacement` returns its input byte for byte exactly when the input
    holds no link start followed by a `]` (goTest.go:61-72).
   */
  lemma RewrittenUnchangedIff(b: Bytes)
    ensures Rewritten(b) == b <==> forall k :: 0 <= k < |b| ==> LinkEnd(b, k).None?
  {
    NoLinksIff(b, 0);
  }

  /** In particular, input without a `[`, or without a `]`, comes back unchanged. */
  lemma NoBracketUnchanged(b: Bytes)
    requires OpenBracket !in b || CloseBracket !in b
    ensures Rewritten(b) == b
  {
    forall k | 0 <= k < |b| ensures LinkEnd(b, k).None? {
    }
    RewrittenUnchangedIff(b);
  }

  /** The unfolding of `RewriteFrom` for one iteration of the outer loop of goTest.go:61-71. */
  lemma ScanStep(body: Bytes, i: nat)
    requires i < |body|
    ensures LinkEnd(body, i).None? ==> RewriteFrom(body, i).out == RewriteFrom(body, i + 1).out
    ensures LinkEnd(body, i).Some? ==>
              var j := LinkEnd(body, i).value;
              RewriteFrom(body, i).out == RewriteFrom(ReplaceLink(body, i, j), i + 1).out
  {
  }

  /**
    The inner loop of goTest.go:63-69: the index of the nearest `]` at or
    after `from`, or `|body|` when no `]` remains (where the source's loop
    runs out instead of breaking).
   */
  method NearestClose(body: Bytes, from: nat) returns (j: nat)
    requires from <= |body|
    ensures from <= j <= |body|
    ensures j < |body| ==> body[j] == CloseBracket
    ensures forall k :: from <= k < j ==> body[k] != CloseBracket
    ensures j < |body| <==> FindClose(body, from).Some?
    ensures j < |body| ==> FindClose(body, from) == Some(j)
  {
    j := from;
    while j < |body|
      invariant from <= j <= |body|
      invariant forall k :: from <= k < j ==> body[k] != CloseBracket
    {
      if body[j] == CloseBracket {
        FindCloseNearest(body, from, j);
        return;
      }
      j := j + 1;
    }
  }

  /** An outer iteration at an `i` that is not a link start leaves the buffer as it is. */
  lemma AdvanceNoStart(body: Bytes, i: nat)
    requires i < |body| && !LinkStart(body, i)
    ensures RewriteFrom(body, i).out == RewriteFrom(body, i + 1).out
  {
    ScanStep(body, i);
  }

  /** An outer iteration at a link start with no `]` after it leaves the buffer as it is. */
  lemma AdvanceNoClose(body: Bytes, i: nat)
    requires i < |body| && LinkStart(body, i)
    requires forall k :: i < k < |body| ==> body[k] != CloseBracket
    ensures RewriteFrom(body, i).out == RewriteFrom(body, i + 1).out
  {
    assert LinkEnd(body, i).None?;
    ScanStep(body, i);
  }

  /**
    An outer iteration at a link start whose nearest `]` is at `j` goes on in
    the rewritten buffer, which holds one `]` fewer and is longer.
   */
  lemma AdvanceLink(body: Bytes, i: nat, j: nat)
    requires i < j < |body| && LinkStart(body, i) && body[j] == CloseBracket
    requires forall k :: i + 1 <= k < j ==> body[k] != CloseBracket
    ensures var next := ReplaceFirst(body, body[i..j + 1], Anchor(body[i + 1..j]));
            && RewriteFrom(body, i).out == RewriteFrom(next, i + 1).out
            && CloseCount(next) + 1 == CloseCount(body)
            && |next| > |body|
  {
    FindCloseNearest(body, i + 1, j);
    LinkTargetShape(body, i, j);
    ReplaceLinkShape(body, i, j);
    ScanStep(body, i);
  }

  /** A stretch of the buffer without `[` is passed over without any change to the buffer. */
  lemma {:induction false} SkipPlain(body: Bytes, i: nat, m: nat)
    requires i <= m <= |body|
    requires forall k :: i <= k < m ==> body[k] != OpenBracket
    ensures RewriteFrom(body, i).out == RewriteFrom(body, m).out
    decreases m - i
  {
    if i < m {
      AdvanceNoStart(body, i);
      SkipPlain(body, i + 1, m);
    }
  }

  /**
    The loop of goTest.go:59-73 on a buffer that it reassigns as it goes.  The
    outer loop terminates because each replacement removes one `]` and the
    index otherwise advances: the pair (`]` count, bytes left) decreases.
   */
  method DeepReplacement(b: Bytes) returns (out: Bytes)
    ensures out == Rewritten(b)
  {
    var body := b;
    var i := 0;
    while i < |body|
      invariant i <= |body|
      invariant RewriteFrom(body, i).out == Rewritten(b)
      decreases CloseCount(body), |body| - i
    {
      if LinkStart(body, i) {
        var j := NearestClose(body, i + 1);
        if j < |body| {
          AdvanceLink(body, i, j);
          body := ReplaceFirst(body, body[i..j + 1], Anchor(body[i + 1..j]));
        } else {
          AdvanceNoClose(body, i);
        }
      } else {
        AdvanceNoStart(body, i);
      }
      i := i + 1;
    }
    out := body;
  }
}
