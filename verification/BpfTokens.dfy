/** The tokeniser of the BPF-subset language, with the offset of every token. */
module BpfTokens {
  import opened Text

  datatype Kind = LParen | RParen | Slash | Word

  datatype Token = Token(kind: Kind, value: string, pos: nat)

  /** `[^\s()/]`. */
  predicate IsWordChar(c: char) { !IsSpace(c) && c != '(' && c != ')' && c != '/' }

  /** End of the longest run of word characters from `i`. */
  function WordEnd(expr: string, i: nat): (j: nat)
    requires i <= |expr|
    ensures i <= j <= |expr|
    ensures forall k :: i <= k < j ==> IsWordChar(expr[k])
    ensures j < |expr| ==> !IsWordChar(expr[j])
    decreases |expr| - i
  {
    if i < |expr| && IsWordChar(expr[i]) then WordEnd(expr, i + 1) else i
  }

  function KindOf(c: char): Kind
  {
    if c == '(' then LParen else if c == ')' then RParen else if c == '/' then Slash else Word
  }

  /** The token that starts at a non-space character. */
  function TokenAt(expr: string, i: nat): (t: Token)
    requires i < |expr| && !IsSpace(expr[i])
    ensures |t.value| > 0 && i + |t.value| <= |expr|
  {
    var end := if IsWordChar(expr[i]) then WordEnd(expr, i) else i + 1;
    Token(KindOf(expr[i]), expr[i..end], i)
  }

  function TokensFrom(expr: string, i: nat): seq<Token>
    requires i <= |expr|
    decreases |expr| - i
  {
    if i == |expr| then []
    else if IsSpace(expr[i]) then TokensFrom(expr, i + 1)
    else
      var t := TokenAt(expr, i);
      [t] + TokensFrom(expr, i + |t.value|)
  }

  /** `tokenize`: every match of the token pattern, left to right. */
  method Tokenize(expr: string) returns (tokens: seq<Token>)
    ensures tokens == TokensFrom(expr, 0)
  {
    tokens := [];
    var i := 0;
    while i < |expr|
      invariant i <= |expr|
      invariant tokens + TokensFrom(expr, i) == TokensFrom(expr, 0)
    {
      if IsSpace(expr[i]) {
        i := i + 1;
      } else {
        var t := TokenAt(expr, i);
        assert tokens + ([t] + TokensFrom(expr, i + |t.value|)) == tokens + [t] + TokensFrom(expr, i + |t.value|);
        tokens := tokens + [t];
        i := i + |t.value|;
      }
    }
  }

  /** An independent description: from `i` on, `ts` are the source's own slices at their offsets, with nothing but
      spaces between them, words as long as they can be and every other token one character long. */
  predicate Tiles(expr: string, i: nat, ts: seq<Token>)
    decreases |ts|
  {
    if ts == [] then i <= |expr| && forall k :: i <= k < |expr| ==> IsSpace(expr[k])
    else
      var t := ts[0];
      var end := t.pos + |t.value|;
      && i <= t.pos < end <= |expr| && t.value == expr[t.pos..end]
      && (forall k :: i <= k < t.pos ==> IsSpace(expr[k]))
      && t.kind == KindOf(expr[t.pos])
      && (if t.kind == Word
          then (forall k :: t.pos <= k < end ==> IsWordChar(expr[k])) && (end < |expr| ==> !IsWordChar(expr[end]))
          else |t.value| == 1)
      && Tiles(expr, end, ts[1..])
  }

  lemma SkipSpace(expr: string, i: nat, ts: seq<Token>)
    requires i < |expr| && IsSpace(expr[i])
    ensures Tiles(expr, i, ts) <==> Tiles(expr, i + 1, ts)
  {
    hide IsSpace, IsWordChar;
    if ts != [] && i == ts[0].pos { assert !Tiles(expr, i, ts) by { SpaceStartsNothing(expr, i, ts); } }
  }

  lemma SpaceStartsNothing(expr: string, i: nat, ts: seq<Token>)
    requires i < |expr| && IsSpace(expr[i]) && ts != [] && ts[0].pos == i
    ensures !Tiles(expr, i, ts)
  {
  }

  /** The first token of a tiling that starts at a non-space character is the tokeniser's. */
  lemma FirstTile(expr: string, i: nat, ts: seq<Token>)
    requires i < |expr| && !IsSpace(expr[i]) && Tiles(expr, i, ts)
    ensures ts != [] && ts[0] == TokenAt(expr, i)
  {
    hide IsSpace;
    var t := ts[0];
    assert t.pos == i;
    if t.kind == Word {
      WordIsWordChar(expr[i]);
      assert WordEnd(expr, i) == i + |t.value|;
    }
  }

  lemma WordIsWordChar(c: char)
    ensures !IsSpace(c) ==> (KindOf(c) == Word <==> IsWordChar(c))
  {
  }

  lemma {:induction false} TokensFromTile(expr: string, i: nat)
    requires i <= |expr|
    ensures Tiles(expr, i, TokensFrom(expr, i))
    decreases |expr| - i
  {
    if i < |expr| {
      if IsSpace(expr[i]) {
        TokensFromTile(expr, i + 1);
        SkipSpace(expr, i, TokensFrom(expr, i));
      } else {
        WordIsWordChar(expr[i]);
        TokensFromTile(expr, i + |TokenAt(expr, i).value|);
      }
    }
  }

  /** The tokens are the one sequence that tiles the expression. */
  lemma {:induction false} TokensTile(expr: string, i: nat, ts: seq<Token>)
    requires i <= |expr|
    ensures ts == TokensFrom(expr, i) <==> Tiles(expr, i, ts)
    decreases |expr| - i
  {
    hide IsSpace, TokenAt;
    TokensFromTile(expr, i);
    if i < |expr| && Tiles(expr, i, ts) {
      if IsSpace(expr[i]) {
        SkipSpace(expr, i, ts);
        TokensTile(expr, i + 1, ts);
      } else {
        FirstTile(expr, i, ts);
        TokensTile(expr, i + |ts[0].value|, ts[1..]);
        assert ts == [ts[0]] + ts[1..];
      }
    }
  }

  predicate Within(ts: seq<Token>, len: nat) { forall k :: 0 <= k < |ts| ==> ts[k].pos + |ts[k].value| <= len }

  lemma {:induction false} TokensWithin(expr: string, i: nat)
    requires i <= |expr|
    ensures Within(TokensFrom(expr, i), |expr|)
    decreases |expr| - i
  {
    if i < |expr| {
      if IsSpace(expr[i]) { TokensWithin(expr, i + 1); } else { TokensWithin(expr, i + |TokenAt(expr, i).value|); }
    }
  }
}
