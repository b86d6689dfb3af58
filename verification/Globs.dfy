/**
 Glob patterns. A pattern is a list of tokens, and `Matches` says, by plain recursion, which texts
 the list accepts. `GlobMatch` is the program's loop, which remembers only the last star.
 */
module Globs {
  import opened ByteStrings

  const QUESTION: byte := 63
  const OPEN: byte := 91
  const CLOSE: byte := 93
  const CARET: byte := 94
  const BANG: byte := 33
  const BACKSLASH: byte := 92

  datatype Span = Span(lo: byte, hi: byte)

  /**
   `Never` stands for a class that is not closed and for a trailing backslash; a negated class that
   is not closed accepts every byte, and is the negation of the empty class.
   */
  datatype Token =
    | Star
    | Any
    | Class(negated: bool, spans: seq<Span>)
    | Literal(b: byte)
    | Never

  // ----- the tokens of a pattern -----

  /** The members of a class from position `p` on, whether it is closed, and where it ends. */
  function ClassBody(pat: Bytes, p: nat): (r: (seq<Span>, bool, nat))
    requires p <= |pat|
    ensures p <= r.2 <= |pat| && (r.1 ==> p < r.2) && (!r.1 ==> r.2 == |pat|)
    decreases |pat| - p
  {
    if p == |pat| then ([], false, p)
    else if pat[p] == CLOSE then ([], true, p + 1)
    else if p + 2 < |pat| && pat[p + 1] == MINUS && pat[p + 2] != CLOSE then
      var rest := ClassBody(pat, p + 3);
      ([Span(pat[p], pat[p + 2])] + rest.0, rest.1, rest.2)
    else
      var rest := ClassBody(pat, p + 1);
      ([Span(pat[p], pat[p])] + rest.0, rest.1, rest.2)
  }

  predicate Negated(pat: Bytes, p: nat) {
    p < |pat| && (pat[p] == CARET || pat[p] == BANG)
  }

  /** The token at position `p` and the position after it. */
  function TokenAt(pat: Bytes, p: nat): (r: (Token, nat))
    requires p < |pat|
    ensures p < r.1 <= |pat|
  {
    if pat[p] == STAR then (Star, p + 1)
    else if pat[p] == QUESTION then (Any, p + 1)
    else if pat[p] == OPEN then
      var negated := Negated(pat, p + 1);
      var (spans, closed, next) := ClassBody(pat, if negated then p + 2 else p + 1);
      (if closed then Class(negated, spans) else if negated then Class(true, []) else Never, next)
    else if pat[p] == BACKSLASH then
      if p + 1 < |pat| then (Literal(pat[p + 1]), p + 2) else (Never, p + 1)
    else (Literal(pat[p]), p + 1)
  }

  function Tokens(pat: Bytes, p: nat): seq<Token>
    requires p <= |pat|
    decreases |pat| - p
  {
    if p == |pat| then [] else [TokenAt(pat, p).0] + Tokens(pat, TokenAt(pat, p).1)
  }

  // ----- the language of a token list -----

  predicate InSpans(spans: seq<Span>, c: byte) {
    exists i :: 0 <= i < |spans| && spans[i].lo <= c <= spans[i].hi
  }

  /** Whether a token other than the star accepts the byte `c`. */
  predicate Accepts(token: Token, c: byte) {
    match token
    case Any => true
    case Class(negated, spans) => InSpans(spans, c) != negated
    case Literal(b) => b == c
    case Star => false
    case Never => false
  }

  predicate Matches(tokens: seq<Token>, text: Bytes)
    decreases |tokens| + |text|
  {
    if tokens == [] then text == []
    else if tokens[0] == Star then
      Matches(tokens[1..], text) || (text != [] && Matches(tokens, text[1..]))
    else
      text != [] && Accepts(tokens[0], text[0]) && Matches(tokens[1..], text[1..])
  }

  /** Whether `text` belongs to the language of the pattern. */
  predicate InLanguage(pat: Bytes, text: Bytes) {
    Matches(Tokens(pat, 0), text)
  }

  // ----- why the last star is enough -----

  ghost predicate StarFree(tokens: seq<Token>) {
    forall i :: 0 <= i < |tokens| ==> tokens[i] != Star
  }

  /** A star-free head takes exactly one byte a token. */
  lemma {:induction false} HeadTakesItsLength(head: seq<Token>, tail: seq<Token>, text: Bytes)
    requires StarFree(head) && Matches(head + tail, text)
    ensures |head| <= |text| && Matches(tail, text[|head|..])
  {
    if head == [] {
      assert head + tail == tail && text[0..] == text;
    } else {
      assert (head + tail)[1..] == head[1..] + tail;
      HeadTakesItsLength(head[1..], tail, text[1..]);
      assert text[1..][|head[1..]|..] == text[|head|..];
    }
  }

  /** A star may always take more at the front. */
  lemma {:induction false} StarSwallows(tokens: seq<Token>, text: Bytes, k: nat)
    requires tokens != [] && tokens[0] == Star
    requires k <= |text| && Matches(tokens, text[k..])
    ensures Matches(tokens, text)
    decreases k
  {
    if k == 0 {
      assert text[0..] == text;
    } else {
      assert text[k - 1..][1..] == text[k..];
      StarSwallows(tokens, text, k - 1);
    }
  }

  /** A star matches when what follows it matches some suffix, and only then. */
  lemma {:induction false} StarChooses(tokens: seq<Token>, text: Bytes) returns (k: nat)
    requires tokens != [] && tokens[0] == Star && Matches(tokens, text)
    ensures k <= |text| && Matches(tokens[1..], text[k..])
    decreases |text|
  {
    if Matches(tokens[1..], text) {
      k := 0;
      assert text[0..] == text;
    } else {
      var j := StarChooses(tokens, text[1..]);
      k := j + 1;
      assert text[1..][j..] == text[k..];
    }
  }

  /**
   The exchange: `head` has matched as far as a second star. If the tokens from that star on do not
   match what is left, no later start of the first star can help.
   */
  lemma LastStarIsEnough(head: seq<Token>, tail: seq<Token>, text: Bytes)
    requires StarFree(head) && |head| <= |text|
    requires tail != [] && tail[0] == Star && !Matches(tail, text[|head|..])
    ensures !Matches([Star] + head + tail, text)
  {
    var all := [Star] + head + tail;
    if Matches(all, text) {
      var k := StarChooses(all, text);
      assert all[1..] == head + tail;
      HeadTakesItsLength(head, tail, text[k..]);
      assert text[k..][|head|..] == text[|head|..][k..];
      StarSwallows(tail, text[|head|..], k);
    }
  }

  /** A head at least as long as the text uses it up. */
  lemma HeadUsesUp(head: seq<Token>, tail: seq<Token>, text: Bytes)
    requires StarFree(head) && |text| <= |head| && Matches(head + tail, text)
    ensures Matches(tail, [])
  {
    HeadTakesItsLength(head, tail, text);
    assert text[|head|..] == [];
  }

  /** At the end of the text: a later start would leave the head too few bytes. */
  lemma NoLaterStart(head: seq<Token>, tail: seq<Token>, text: Bytes)
    requires StarFree(head) && |head| == |text|
    requires !Matches(tail, [])
    ensures !Matches([Star] + head + tail, text)
  {
    hide Matches, StarFree;
    var all := [Star] + head + tail;
    if Matches(all, text) {
      var k := StarChooses(all, text);
      assert all[1..] == head + tail;
      HeadUsesUp(head, tail, text[k..]);
    }
  }

  /** The pattern of a single star, for which KEYS and SCAN skip the matcher, accepts every text. */
  lemma StarMatchesAll(text: Bytes)
    ensures InLanguage([STAR], text)
  {
    assert Tokens([STAR], 0) == [Star] + Tokens([STAR], 1) == [Star];
    assert text[|text|..] == [];
    assert Matches([Star][1..], []);
    StarSwallows([Star], text, |text|);
  }

  // ----- the program's matcher -----

  /** The state of the search: where the last star is, where its current attempt began. */
  ghost predicate Searching(pat: Bytes, text: Bytes, p: nat, t: nat, starred: bool, starP: nat, starT: nat)
  {
    && p <= |pat| && t <= |text|
    && if !starred then InLanguage(pat, text) == Matches(Tokens(pat, p), text[t..])
       else
         && starP < p && pat[starP] == STAR && starT <= t
         && InLanguage(pat, text) == Matches(Tokens(pat, starP), text[starT..])
         && Matches(Tokens(pat, starP + 1), text[starT..]) == Matches(Tokens(pat, p), text[t..])
         && t - starT <= |Tokens(pat, starP + 1)|
         && StarFree(Tokens(pat, starP + 1)[..t - starT])
         && Tokens(pat, starP + 1)[t - starT..] == Tokens(pat, p)
  }

  lemma AcceptStep(pat: Bytes, text: Bytes, p: nat, t: nat)
    requires p < |pat| && t < |text| && pat[p] != STAR
    requires Accepts(TokenAt(pat, p).0, text[t])
    ensures TokenAt(pat, p).0 != Star
    ensures Tokens(pat, p) == [TokenAt(pat, p).0] + Tokens(pat, TokenAt(pat, p).1)
    ensures Matches(Tokens(pat, p), text[t..]) == Matches(Tokens(pat, TokenAt(pat, p).1), text[t + 1..])
  {
    assert text[t..][1..] == text[t + 1..];
    assert Tokens(pat, p)[1..] == Tokens(pat, TokenAt(pat, p).1);
  }

  /** The star-free head grows by one token. */
  lemma HeadGrows(all: seq<Token>, k: nat, token: Token, rest: seq<Token>)
    requires k <= |all| && all[k..] == [token] + rest && StarFree(all[..k]) && token != Star
    ensures k + 1 <= |all| && StarFree(all[..k + 1]) && all[k + 1..] == rest
  {
    assert |all[k..]| == 1 + |rest|;
    assert all[k] == all[k..][0] == token;
    assert all[k + 1..] == all[k..][1..] == rest;
    assert all[..k + 1] == all[..k] + [token];
  }

  /** One more byte accepted by the token at `p`. */
  lemma Advance(pat: Bytes, text: Bytes, p: nat, t: nat, starred: bool, starP: nat, starT: nat)
    requires Searching(pat, text, p, t, starred, starP, starT)
    requires p < |pat| && t < |text| && pat[p] != STAR
    requires Accepts(TokenAt(pat, p).0, text[t])
    ensures Searching(pat, text, TokenAt(pat, p).1, t + 1, starred, starP, starT)
  {
    AcceptStep(pat, text, p, t);
    hide Matches, Tokens, Accepts, StarFree;
    var (token, next) := TokenAt(pat, p);
    hide TokenAt;
    if starred {
      HeadGrows(Tokens(pat, starP + 1), t - starT, token, Tokens(pat, next));
    }
  }

  /** The attempt fails at `p`: the last star starts one byte later. */
  lemma Retry(pat: Bytes, text: Bytes, p: nat, t: nat, starP: nat, starT: nat)
    requires Searching(pat, text, p, t, true, starP, starT)
    requires t < |text| && !Matches(Tokens(pat, p), text[t..])
    ensures Searching(pat, text, starP + 1, starT + 1, true, starP, starT + 1)
  {
    var all := Tokens(pat, starP);
    assert all[1..] == Tokens(pat, starP + 1);
    assert text[starT..][1..] == text[starT + 1..];
    StarStep(Tokens(pat, starP + 1), text[starT + 1..]);
    assert Tokens(pat, starP + 1)[0..] == Tokens(pat, starP + 1);
  }

  /** Nothing at `p` accepts the next byte. */
  lemma Reject(pat: Bytes, p: nat, text: Bytes, t: nat)
    requires p <= |pat| && t < |text|
    requires p < |pat| ==> pat[p] != STAR && !Accepts(TokenAt(pat, p).0, text[t])
    ensures !Matches(Tokens(pat, p), text[t..])
  {
  }

  lemma StarStep(tokens: seq<Token>, text: Bytes)
    ensures Matches([Star] + tokens, text) ==
            (Matches(tokens, text) || (text != [] && Matches([Star] + tokens, text[1..])))
  {
    assert ([Star] + tokens)[1..] == tokens;
  }

  /** A star at `p` replaces the remembered one. */
  lemma NewStar(pat: Bytes, text: Bytes, p: nat, t: nat, starred: bool, starP: nat, starT: nat)
    requires Searching(pat, text, p, t, starred, starP, starT)
    requires p < |pat| && pat[p] == STAR
    ensures Searching(pat, text, p + 1, t, true, p, t)
  {
    hide Matches, Tokens, TokenAt, StarFree;
    var here := Tokens(pat, p);
    assert Tokens(pat, p + 1)[0..] == Tokens(pat, p + 1);
    NoHead(pat, p);
    if starred {
      var rest := Tokens(pat, starP + 1);
      var head := rest[..t - starT];
      assert rest == head + here;
      StarTokens(pat, starP);
      StarTokens(pat, p);
      assert Tokens(pat, starP) == [Star] + head + here == [Star] + rest;
      StarStep(rest, text[starT..]);
      assert text[starT..][|head|..] == text[t..];
      if !Matches(here, text[t..]) {
        LastStarIsEnough(head, here, text[starT..]);
      }
    }
  }

  lemma NoHead(pat: Bytes, p: nat)
    requires p < |pat|
    ensures StarFree(Tokens(pat, p + 1)[..0])
  {
  }

  lemma {:induction false} OnlyStarsMatchNothing(pat: Bytes, p: nat)
    requires p <= |pat|
    ensures p < |pat| && pat[p] == STAR ==> Matches(Tokens(pat, p), []) == Matches(Tokens(pat, p + 1), [])
    ensures p < |pat| && pat[p] != STAR ==> !Matches(Tokens(pat, p), [])
    ensures p == |pat| ==> Matches(Tokens(pat, p), [])
  {
    if p < |pat| {
      assert Tokens(pat, p)[1..] == Tokens(pat, TokenAt(pat, p).1);
    }
  }

  lemma StarTokens(pat: Bytes, p: nat)
    requires p < |pat| && pat[p] == STAR
    ensures Tokens(pat, p) == [Star] + Tokens(pat, p + 1)
  {
  }

  /** The text is used up: what is left of the pattern decides. */
  lemma AtEnd(pat: Bytes, text: Bytes, p: nat, starred: bool, starP: nat, starT: nat)
    requires Searching(pat, text, p, |text|, starred, starP, starT)
    ensures InLanguage(pat, text) == Matches(Tokens(pat, p), [])
  {
    hide Matches, Tokens;
    assert text[|text|..] == [];
    if starred {
      var rest := Tokens(pat, starP + 1);
      var head := rest[..|text| - starT];
      StarTokens(pat, starP);
      assert rest == head + Tokens(pat, p);
      assert [Star] + head + Tokens(pat, p) == [Star] + rest;
      StarStep(rest, text[starT..]);
      if !Matches(Tokens(pat, p), []) {
        NoLaterStart(head, Tokens(pat, p), text[starT..]);
      }
    }
  }

  lemma SpansCons(span: Span, rest: seq<Span>, c: byte)
    ensures InSpans([span] + rest, c) == (span.lo <= c <= span.hi || InSpans(rest, c))
  {
    var all := [span] + rest;
    assert all[0] == span;
    assert forall i :: 0 <= i < |rest| ==> rest[i] == all[i + 1];
  }

  /** Reads a class whose first byte is at `start`, and tests `c` against its members. */
  method MatchClass(pat: Bytes, start: nat, c: byte) returns (matched: bool, closed: bool, p: nat)
    requires start <= |pat|
    ensures matched == InSpans(ClassBody(pat, start).0, c)
    ensures closed == ClassBody(pat, start).1 && p == ClassBody(pat, start).2
  {
    p, matched, closed := start, false, false;
    ghost var whole := ClassBody(pat, start);
    while p < |pat|
      invariant start <= p <= |pat| && !closed
      invariant InSpans(whole.0, c) == (matched || InSpans(ClassBody(pat, p).0, c))
      invariant whole.1 == ClassBody(pat, p).1 && whole.2 == ClassBody(pat, p).2
      decreases |pat| - p
    {
      if pat[p] == CLOSE {
        closed := true;
        p := p + 1;
        return;
      }
      var span;
      if p + 2 < |pat| && pat[p + 1] == MINUS && pat[p + 2] != CLOSE {
        span := Span(pat[p], pat[p + 2]);
        SpansCons(span, ClassBody(pat, p + 3).0, c);
        p := p + 3;
      } else {
        span := Span(pat[p], pat[p]);
        SpansCons(span, ClassBody(pat, p + 1).0, c);
        p := p + 1;
      }
      if span.lo <= c <= span.hi {
        matched := true;
      }
    }
  }

  /** Whether the token at `p` accepts `c`, and the position after the token. */
  method MatchToken(pat: Bytes, p: nat, c: byte) returns (accepted: bool, next: nat)
    requires p < |pat| && pat[p] != STAR
    ensures accepted == Accepts(TokenAt(pat, p).0, c)
    ensures accepted ==> next == TokenAt(pat, p).1
  {
    if pat[p] == QUESTION {
      return true, p + 1;
    } else if pat[p] == OPEN {
      var negate := p + 1 < |pat| && (pat[p + 1] == CARET || pat[p + 1] == BANG);
      var matched, closed, q := MatchClass(pat, if negate then p + 2 else p + 1, c);
      if !closed {
        matched := false;
      }
      return matched != negate, q;
    } else if pat[p] == BACKSLASH {
      return p + 1 < |pat| && pat[p + 1] == c, p + 2;
    } else {
      return pat[p] == c, p + 1;
    }
  }

  /** Decides the language of the pattern, for every pattern and every text. */
  method GlobMatch(pat: Bytes, text: Bytes) returns (r: bool)
    ensures r == InLanguage(pat, text)
  {
    hide Matches, Accepts, Tokens, ClassBody;
    var p: nat, t: nat := 0, 0;
    var starred, starP: nat, starT: nat := false, 0, 0;
    assert text[0..] == text;
    while t < |text|
      invariant Searching(pat, text, p, t, starred, starP, starT)
      decreases if starred then |pat| - starP else |pat| + 1, |text| - starT, |pat| - p
    {
      if p < |pat| && pat[p] == STAR {
        NewStar(pat, text, p, t, starred, starP, starT);
        starred, starP, starT := true, p, t;
        p := p + 1;
      } else {
        var accepted, next := false, p;
        if p < |pat| {
          accepted, next := MatchToken(pat, p, text[t]);
        }
        if accepted {
          Advance(pat, text, p, t, starred, starP, starT);
          p, t := next, t + 1;
        } else {
          Reject(pat, p, text, t);
          if !starred {
            return false;
          }
          Retry(pat, text, p, t, starP, starT);
          p := starP + 1;
          starT := starT + 1;
          t := starT;
        }
      }
    }
    AtEnd(pat, text, p, starred, starP, starT);
    while p < |pat| && pat[p] == STAR
      invariant p <= |pat|
      invariant InLanguage(pat, text) == Matches(Tokens(pat, p), [])
    {
      OnlyStarsMatchNothing(pat, p);
      p := p + 1;
    }
    OnlyStarsMatchNothing(pat, p);
    return p == |pat|;
  }
}
