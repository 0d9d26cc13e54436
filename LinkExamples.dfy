/**
  Two shapes of input for `deepReplacement` (goTest.go:59-73).  In the first,
  a token appears twice, and both copies are rewritten, not only the first.
  In the second, an escaped token is followed by an eligible copy of itself,
  and the escaped copy, which is not a link start, is rewritten as well.

  The lemmas about the scan only chain facts; the facts about sequences come
  from the small lemmas before them, which keep the scan out of their
  context.
 */
module LinkExamples {

  import opened ByteStrings
  import opened LinkRewriter

  /** The token `[t]` of the target `t`. */
  function Token(t: Bytes): (r: Bytes)
    ensures |r| == |t| + 2 && r[0] == OpenBracket && r[|r| - 1] == CloseBracket
  {
    [OpenBracket] + t + [CloseBracket]
  }

  /** A target without `[` gives an anchor without `[` that ends in `>`. */
  lemma AnchorNoOpen(t: Bytes)
    requires OpenBracket !in t
    ensures OpenBracket !in Anchor(t)
    ensures |Anchor(t)| >= |t| + 3 && Anchor(t)[|Anchor(t)| - 1] == 62
  {
  }

  /** The pieces of `p + tok + q` are found back by slicing. */
  lemma Pieces(p: Bytes, tok: Bytes, q: Bytes)
    ensures var b := p + tok + q;
            && b[..|p|] == p
            && b[|p|..|p| + |tok|] == tok
            && b[|p| + |tok|..] == q
  {
  }

  /**
    Regrouping a concatenation of five pieces.  Stated on its own so that the
    scan lemmas see both groupings as the same buffer; without the call the
    solver runs out of resource.
   */
  lemma Regroup5(a: Bytes, b: Bytes, c: Bytes, d: Bytes, e: Bytes)
    ensures a + b + (c + d + e) == a + b + c + d + e
  {
  }

  /** `body[from..to]` is `piece`, which holds no `[`. */
  lemma NoOpenBetween(body: Bytes, from: nat, to: nat, piece: Bytes)
    requires from <= to <= |body| && body[from..to] == piece && OpenBracket !in piece
    ensures forall m :: from <= m < to ==> body[m] != OpenBracket
  {
    forall m | from <= m < to ensures body[m] != OpenBracket {
      assert body[m] == piece[m - from];
    }
  }

  /** The target `t` of a token at `i` closes at `i + |t| + 1`. */
  lemma TokenAt(body: Bytes, i: nat, t: Bytes)
    requires CloseBracket !in t
    requires i + |t| + 2 <= |body| && body[i..i + |t| + 2] == Token(t)
    ensures body[i] == OpenBracket && body[i + |t| + 1] == CloseBracket
    ensures forall m :: i + 1 <= m < i + |t| + 1 ==> body[m] != CloseBracket
    ensures body[i..i + |t| + 2] == Token(t) && body[i + 1..i + |t| + 1] == t
  {
    assert body[i] == body[i..i + |t| + 2][0];
    assert body[i + |t| + 1] == body[i..i + |t| + 2][|t| + 1];
    forall m | i + 1 <= m < i + |t| + 1 ensures body[m] != CloseBracket {
      assert body[m] == body[i..i + |t| + 2][m - i] == t[m - i - 1];
    }
    forall m | 0 <= m < |t| ensures body[i + 1..i + |t| + 1][m] == t[m] {
      assert body[i + 1 + m] == body[i..i + |t| + 2][m + 1] == t[m];
    }
  }

  /** The token right after `pre`, whose last byte is not `\\`, is a link start. */
  lemma LinkAfter(pre: Bytes, t: Bytes, q: Bytes)
    requires 2 <= |pre| && pre[|pre| - 1] != Backslash
    ensures var b := pre + Token(t) + q;
            && |pre| + |t| + 2 <= |b|
            && LinkStart(b, |pre|)
            && b[|pre|..|pre| + |t| + 2] == Token(t)
  {
    Pieces(pre, Token(t), q);
  }

  /** With no `[` before it, the token right after `p` is the copy that a replacement hits. */
  lemma ReplaceAfterPrefix(p: Bytes, t: Bytes, q: Bytes)
    requires OpenBracket !in p
    ensures ReplaceFirst(p + Token(t) + q, Token(t), Anchor(t)) == p + Anchor(t) + q
  {
    var body := p + Token(t) + q;
    Pieces(p, Token(t), q);
    assert OccursAt(body, Token(t), |p|);
    forall m | 0 <= m < |p| ensures !OccursAt(body, Token(t), m) {
      assert body[m] == p[m];
    }
    ReplaceFirstLeftmost(body, Token(t), Anchor(t), |p|);
  }

  /**
    One replacement step of the scan on `p + [t] + q`: the link at `i` has
    the target `t`, and the leftmost copy of its token is the one right
    after `p`, which holds no `[`.
   */
  lemma StepAt(p: Bytes, t: Bytes, q: Bytes, i: nat)
    requires OpenBracket !in p && CloseBracket !in t
    requires i < |p + Token(t) + q| && LinkStart(p + Token(t) + q, i)
    requires i + |t| + 2 <= |p + Token(t) + q| && (p + Token(t) + q)[i..i + |t| + 2] == Token(t)
    ensures RewriteFrom(p + Token(t) + q, i).out == RewriteFrom(p + Anchor(t) + q, i + 1).out
  {
    var body := p + Token(t) + q;
    var j := i + |t| + 1;
    TokenAt(body, i, t);
    assert body[i..j + 1] == Token(t) && body[i + 1..j] == t;
    AdvanceLink(body, i, j);
    ReplaceAfterPrefix(p, t, q);
  }

  /** A prefix without `[` is passed over without any change. */
  lemma SkipPrefix(pre: Bytes, mid: Bytes, rest: Bytes, from: nat)
    requires OpenBracket !in pre && from <= |pre|
    ensures RewriteFrom(pre + mid + rest, from).out == RewriteFrom(pre + mid + rest, |pre|).out
  {
    var b := pre + mid + rest;
    forall m | from <= m < |pre| ensures b[m] != OpenBracket {
      assert b[m] == pre[m];
    }
    SkipPlain(b, from, |pre|);
  }

  /** A buffer without `[` is scanned to its end unchanged. */
  lemma ScanToEnd(body: Bytes, from: nat)
    requires from <= |body| && OpenBracket !in body
    ensures RewriteFrom(body, from).out == body
  {
    NoOpenBetween(body, 0, |body|, body);
    SkipPlain(body, from, |body|);
  }

  /**
    The end of both shapes: the buffer is `pre + [t] + q` with no `[` in `pre`
    or `q`, and the byte before the token is not `\`.  From the token on, the
    token is rewritten and the scan ends.
   */
  lemma LastStep(pre: Bytes, t: Bytes, q: Bytes)
    requires OpenBracket !in pre && OpenBracket !in t && CloseBracket !in t && OpenBracket !in q
    requires 2 <= |pre| && pre[|pre| - 1] != Backslash
    ensures RewriteFrom(pre + Token(t) + q, |pre|).out == pre + Anchor(t) + q
  {
    LinkAfter(pre, t, q);
    StepAt(pre, t, q, |pre|);
    AnchorNoOpen(t);
    ScanToEnd(pre + Anchor(t) + q, |pre| + 1);
  }

  /** ... and from any earlier point of `pre`. */
  lemma LastLink(pre: Bytes, t: Bytes, q: Bytes, from: nat)
    requires OpenBracket !in pre && OpenBracket !in t && CloseBracket !in t && OpenBracket !in q
    requires 2 <= |pre| && pre[|pre| - 1] != Backslash && from <= |pre|
    ensures RewriteFrom(pre + Token(t) + q, from).out == pre + Anchor(t) + q
  {
    SkipPrefix(pre, Token(t), q, from);
    LastStep(pre, t, q);
  }

  /** Dropping an empty tail, which the top-level lemmas cannot do without it. */
  lemma NoTail(a: Bytes)
    ensures a + [] == a
  {
  }

  /** The text before the second token of `p + anchor + s + [t]` is ready for `LastLink`. */
  lemma BeforeSecond(p: Bytes, t: Bytes, s: Bytes)
    requires OpenBracket !in p && OpenBracket !in t && OpenBracket !in s && Backslash !in s
    ensures OpenBracket !in p + Anchor(t) + s
    ensures |p| + 1 <= |p + Anchor(t) + s| && 2 <= |p + Anchor(t) + s|
    ensures (p + Anchor(t) + s)[|p + Anchor(t) + s| - 1] != Backslash
  {
    AnchorNoOpen(t);
    var pre := p + Anchor(t) + s;
    if s == [] {
      assert pre[|pre| - 1] == Anchor(t)[|Anchor(t)| - 1];
    } else {
      assert pre[|pre| - 1] == s[|s| - 1];
    }
  }

  /** The first half of `p[t]s[t]`: its first token is rewritten. */
  lemma RepeatedFirst(p: Bytes, t: Bytes, q: Bytes, from: nat)
    requires 2 <= |p| && OpenBracket !in p && p[|p| - 1] != Backslash && from <= |p|
    requires CloseBracket !in t
    ensures RewriteFrom(p + Token(t) + q, from).out == RewriteFrom(p + Anchor(t) + q, |p| + 1).out
  {
    SkipPrefix(p, Token(t), q, from);
    LinkAfter(p, t, q);
    StepAt(p, t, q, |p|);
  }

  /** The second half of `p[t]s[t]`: the scan reaches the second copy and rewrites it. */
  lemma RepeatedSecond(p: Bytes, t: Bytes, s: Bytes, e: Bytes)
    requires OpenBracket !in p && OpenBracket !in t && CloseBracket !in t
    requires OpenBracket !in s && Backslash !in s && OpenBracket !in e
    ensures RewriteFrom(p + Anchor(t) + (s + Token(t) + e), |p| + 1).out == p + Anchor(t) + s + Anchor(t) + e
  {
    Regroup5(p, Anchor(t), s, Token(t), e);
    BeforeSecond(p, t, s);
    LastLink(p + Anchor(t) + s, t, e, |p| + 1);
  }

  /** The whole scan of `p[t]s[t]` from any point of `p`. */
  lemma RepeatedFrom(p: Bytes, t: Bytes, s: Bytes, e: Bytes, from: nat)
    requires 2 <= |p| && OpenBracket !in p && p[|p| - 1] != Backslash && from <= |p|
    requires OpenBracket !in t && CloseBracket !in t
    requires OpenBracket !in s && Backslash !in s && OpenBracket !in e
    ensures RewriteFrom(p + Token(t) + s + Token(t) + e, from).out == p + Anchor(t) + s + Anchor(t) + e
  {
    Regroup5(p, Token(t), s, Token(t), e);
    RepeatedFirst(p, t, s + Token(t) + e, from);
    RepeatedSecond(p, t, s, e);
  }

  /**
    `p[t]s[t]` becomes `p` + anchor + `s` + anchor: after the first token is
    rewritten, the scan reaches the second copy, which is then the leftmost
    one left, and rewrites it too.  (`See [Home] and [Home]` is one such
    input.)
   */
  lemma RepeatedTokenBothRewritten(p: Bytes, t: Bytes, s: Bytes)
    requires 2 <= |p| && OpenBracket !in p && p[|p| - 1] != Backslash
    requires OpenBracket !in t && CloseBracket !in t
    requires OpenBracket !in s && Backslash !in s
    ensures Rewritten(p + Token(t) + s + Token(t)) == p + Anchor(t) + s + Anchor(t)
  {
    RepeatedFrom(p, t, s, [], 0);
    NoTail(p + Token(t) + s + Token(t));
    NoTail(p + Anchor(t) + s + Anchor(t));
  }

  /**
    Regrouping a concatenation of four pieces, for the same reason; without
    the call the postconditions that use it are not proved.
   */
  lemma Regroup4(a: Bytes, b: Bytes, c: Bytes, d: Bytes)
    ensures a + b + (c + d) == a + b + c + d
  {
  }

  /** In `e[t][t]q` with `e` ending in `\`, the escaped token is no link start ... */
  lemma EscapedNotStart(e: Bytes, t: Bytes, q: Bytes)
    requires 2 <= |e| && e[|e| - 1] == Backslash
    ensures |e| < |e + Token(t) + (Token(t) + q)| && !LinkStart(e + Token(t) + (Token(t) + q), |e|)
  {
    assert (e + Token(t) + (Token(t) + q))[|e| - 1] == Backslash;
  }

  /** ... its target and `]` hold no `[` ... */
  lemma EscapedTargetPlain(e: Bytes, t: Bytes, q: Bytes)
    requires OpenBracket !in t
    ensures |e| + |t| + 2 <= |e + Token(t) + (Token(t) + q)|
    ensures forall m :: |e| < m < |e| + |t| + 2 ==> (e + Token(t) + (Token(t) + q))[m] != OpenBracket
  {
    var b := e + Token(t) + (Token(t) + q);
    forall m | |e| < m < |e| + |t| + 2 ensures b[m] != OpenBracket {
      if m < |e| + |t| + 1 {
        assert b[m] == t[m - |e| - 1];
      }
    }
  }

  /** ... and the copy after it is a link start. */
  lemma EligibleAfterEscaped(e: Bytes, t: Bytes, q: Bytes, i: nat)
    requires 2 <= |e| && i == |e| + |t| + 2
    ensures i < |e + Token(t) + (Token(t) + q)| && LinkStart(e + Token(t) + (Token(t) + q), i)
    ensures i + |t| + 2 <= |e + Token(t) + (Token(t) + q)| && (e + Token(t) + (Token(t) + q))[i..i + |t| + 2] == Token(t)
  {
    var b := e + Token(t) + (Token(t) + q);
    assert b[i - 1] == CloseBracket && b[i] == OpenBracket;
    assert b[i..i + |t| + 2] == Token(t);
  }

  /** A position that is no link start, followed by bytes without `[`, is passed over. */
  lemma SkipNonStart(body: Bytes, k: nat, i: nat)
    requires k < i <= |body| && !LinkStart(body, k)
    requires forall m :: k < m < i ==> body[m] != OpenBracket
    ensures RewriteFrom(body, k).out == RewriteFrom(body, i).out
  {
    AdvanceNoStart(body, k);
    SkipPlain(body, k + 1, i);
  }

  /** The scan of `e[t][t]q` passes over the escaped token to the eligible one at `i`. */
  lemma PastEscaped(e: Bytes, t: Bytes, q: Bytes, i: nat)
    requires 2 <= |e| && e[|e| - 1] == Backslash && OpenBracket !in t
    requires i == |e| + |t| + 2
    ensures RewriteFrom(e + Token(t) + (Token(t) + q), |e|).out == RewriteFrom(e + Token(t) + (Token(t) + q), i).out
  {
    EscapedNotStart(e, t, q);
    EscapedTargetPlain(e, t, q);
    SkipNonStart(e + Token(t) + (Token(t) + q), |e|, i);
  }

  /** ... from any point of `e`. */
  lemma EscapedReach(e: Bytes, t: Bytes, q: Bytes, from: nat, i: nat)
    requires 2 <= |e| && OpenBracket !in e && e[|e| - 1] == Backslash && from <= |e|
    requires OpenBracket !in t && i == |e| + |t| + 2
    ensures RewriteFrom(e + Token(t) + (Token(t) + q), from).out == RewriteFrom(e + Token(t) + (Token(t) + q), i).out
  {
    SkipPrefix(e, Token(t), Token(t) + q, from);
    PastEscaped(e, t, q, i);
  }

  /** ... and rewrites it, which replaces the escaped copy, the leftmost one. */
  lemma EscapedFirst(e: Bytes, t: Bytes, q: Bytes, from: nat, i: nat, j: nat)
    requires 2 <= |e| && OpenBracket !in e && e[|e| - 1] == Backslash && from <= |e|
    requires OpenBracket !in t && CloseBracket !in t
    requires i == |e| + |t| + 2 && j == i + 1
    ensures RewriteFrom(e + Token(t) + (Token(t) + q), from).out
            == RewriteFrom(e + Anchor(t) + (Token(t) + q), j).out
  {
    EscapedReach(e, t, q, from, i);
    EligibleAfterEscaped(e, t, q, i);
    StepAt(e, t, Token(t) + q, i);
  }

  /** The text before the eligible token, once the escaped one is rewritten. */
  lemma AfterEscaped(e: Bytes, t: Bytes)
    requires OpenBracket !in e && OpenBracket !in t
    ensures OpenBracket !in e + Anchor(t)
    ensures |e| + |t| + 3 <= |e + Anchor(t)| && 2 <= |e + Anchor(t)|
    ensures (e + Anchor(t))[|e + Anchor(t)| - 1] != Backslash
  {
    AnchorNoOpen(t);
    assert (e + Anchor(t))[|e + Anchor(t)| - 1] == Anchor(t)[|Anchor(t)| - 1];
  }

  /** The second half of `e[t][t]q`: the eligible copy is rewritten and the scan ends. */
  lemma EscapedSecond(e: Bytes, t: Bytes, q: Bytes, from: nat)
    requires OpenBracket !in e && OpenBracket !in t && CloseBracket !in t && OpenBracket !in q
    requires from <= |e| + |t| + 3
    ensures RewriteFrom(e + Anchor(t) + (Token(t) + q), from).out == e + Anchor(t) + Anchor(t) + q
  {
    Regroup4(e, Anchor(t), Token(t), q);
    AfterEscaped(e, t);
    LastLink(e + Anchor(t), t, q, from);
  }

  /**
    The whole scan of `e[t][t]q` from any point of `e`; the eligible token
    starts at `i`, and the scan goes on at `j` after rewriting it.
   */
  lemma EscapedScan(e: Bytes, t: Bytes, q: Bytes, from: nat, i: nat, j: nat)
    requires 2 <= |e| && OpenBracket !in e && e[|e| - 1] == Backslash && from <= |e|
    requires OpenBracket !in t && CloseBracket !in t && OpenBracket !in q
    requires i == |e| + |t| + 2 && j == i + 1
    ensures RewriteFrom(e + Token(t) + (Token(t) + q), from).out == e + Anchor(t) + Anchor(t) + q
  {
    EscapedFirst(e, t, q, from, i, j);
    EscapedSecond(e, t, q, j);
  }

  /** ... with the buffer grouped as the source builds it. */
  lemma EscapedFrom(e: Bytes, t: Bytes, q: Bytes, from: nat)
    requires 2 <= |e| && OpenBracket !in e && e[|e| - 1] == Backslash && from <= |e|
    requires OpenBracket !in t && CloseBracket !in t && OpenBracket !in q
    ensures RewriteFrom(e + Token(t) + Token(t) + q, from).out == e + Anchor(t) + Anchor(t) + q
  {
    Regroup4(e, Token(t), Token(t), q);
    EscapedScan(e, t, q, from, |e| + |t| + 2, |e| + |t| + 3);
  }

  /**
    `p\[t][t]` becomes `p\` + anchor + anchor.  The escaped token is not a
    link start, but the replacement made for the eligible copy after it hits
    the escaped one, which comes first; the scan then reaches the eligible
    copy and rewrites it as well.
   */
  lemma EscapedTokenRewritten(p: Bytes, t: Bytes)
    requires 1 <= |p| && OpenBracket !in p
    requires OpenBracket !in t && CloseBracket !in t
    ensures Rewritten(p + [Backslash] + Token(t) + Token(t)) == p + [Backslash] + Anchor(t) + Anchor(t)
  {
    EscapedFrom(p + [Backslash], t, [], 0);
    NoTail(p + [Backslash] + Token(t) + Token(t));
    NoTail(p + [Backslash] + Anchor(t) + Anchor(t));
  }
}
