/** A printer for filter trees, and the proof that parsing what it prints gives the tree back, from characters
    through tokens to nodes. (The source's own summary text is not meant to be parsed: it writes "dst/src port"
    for an unqualified port.) */
module BpfPrint {
  import opened Wrappers
  import opened Text
  import opened BpfTokens
  import opened BpfParser
  import opened BpfGrammar

  predicate IsPlainWord(w: string) { w != "" && forall k :: 0 <= k < |w| ==> IsWordChar(w[k]) }

  function SlashIndex(w: string): (k: nat)
    ensures k <= |w| && '/' !in w[..k] && (k < |w| ==> w[k] == '/')
  {
    if w == "" || w[0] == '/' then 0 else
      var k := 1 + SlashIndex(w[1..]);
      assert w[..k] == [w[0]] + w[1..][..k - 1];
      k
  }

  /** Trees of known protocols, ports in range, valid addresses and canonical networks. */
  predicate WellFormed(e: Env, n: Node)
  {
    match n
    case And(l, r) => WellFormed(e, l) && WellFormed(e, r)
    case Or(l, r) => WellFormed(e, l) && WellFormed(e, r)
    case Not(x) => WellFormed(e, x)
    case Proto(name) => name in PROTOCOLS
    case Port(_, port) => port <= 65535
    case Host(_, host) => IsPlainWord(host) && e.isIp(host)
    case Net(_, network) => CanonicalNetwork(e, network)
  }

  /** An address, a slash and a prefix length, which the network parser gives back as they are. */
  predicate CanonicalNetwork(e: Env, network: string)
  {
    var k := SlashIndex(network);
    && k < |network| && IsPlainWord(network[..k]) && IsDigits(network[k + 1..])
    && e.network(network) == Some(network)
  }

  /** A lone term as a whole expression. */
  function Single(p: PrimD): OrD { OneAnd(OneUnary(Prim(p))) }

  lemma SingleIs(e: Env, p: PrimD)
    ensures YieldOr(Single(p)) == YieldPrim(p) && (ValidOr(e, Single(p)) <==> ValidPrim(e, p))
    ensures ValidPrim(e, p) ==> TreeOr(e, Single(p)) == TreePrim(e, p)
    ensures var a := Single(p).a;
            && YieldAnd(a) == YieldPrim(p) && (ValidAnd(e, a) <==> ValidPrim(e, p))
            && (ValidPrim(e, p) ==> TreeAnd(e, a) == TreePrim(e, p))
  {
    var u, a := Prim(p), OneUnary(Prim(p));
    assert YieldUnary(u) == YieldPrim(p) && (ValidUnary(e, u) <==> ValidPrim(e, p));
    assert ValidPrim(e, p) ==> TreeUnary(e, u) == TreePrim(e, p);
    assert YieldAnd(a) == YieldUnary(u) && (ValidAnd(e, a) <==> ValidUnary(e, u));
  }

  lemma ConjoinedIs(e: Env, p: PrimD, q: PrimD)
    ensures var d := OneAnd(MoreAnd(Single(p).a, true, Prim(q)));
            && YieldOr(d) == YieldPrim(p) + ([Kw("and")] + YieldPrim(q))
            && (ValidOr(e, d) <==> ValidPrim(e, p) && ValidPrim(e, q))
            && (ValidOr(e, d) ==> TreeOr(e, d) == And(TreePrim(e, p), TreePrim(e, q)))
  {
    SingleIs(e, p);
    SingleIs(e, q);
    var a := MoreAnd(Single(p).a, true, Prim(q));
    assert YieldAnd(a) == YieldPrim(p) + ([Kw("and")] + YieldUnary(Prim(q)));
    assert ValidAnd(e, a) <==> ValidPrim(e, p) && ValidUnary(e, Prim(q));
    assert ValidAnd(e, a) ==> TreeAnd(e, a) == And(TreePrim(e, p), TreeUnary(e, Prim(q)));
  }

  lemma DisjoinedIs(e: Env, p: PrimD, q: PrimD)
    ensures var d := MoreOr(Single(p), Single(q).a);
            && YieldOr(d) == YieldPrim(p) + ([Kw("or")] + YieldPrim(q))
            && (ValidOr(e, d) <==> ValidPrim(e, p) && ValidPrim(e, q))
            && (ValidOr(e, d) ==> TreeOr(e, d) == Or(TreePrim(e, p), TreePrim(e, q)))
  {
    SingleIs(e, p);
    SingleIs(e, q);
  }

  lemma NegatedIs(e: Env, p: PrimD)
    ensures var d := OneAnd(OneUnary(NotD(Prim(p))));
            && YieldOr(d) == [Kw("not")] + YieldPrim(p) && (ValidOr(e, d) <==> ValidPrim(e, p))
            && (ValidPrim(e, p) ==> TreeOr(e, d) == Not(TreePrim(e, p)))
  {
    var v, u := Prim(p), NotD(Prim(p));
    assert YieldUnary(u) == [Kw("not")] + YieldUnary(v) && YieldUnary(v) == YieldPrim(p);
    assert ValidUnary(e, u) <==> ValidUnary(e, v);
    assert ValidPrim(e, p) ==> TreeUnary(e, u) == Not(TreeUnary(e, v));
    assert YieldAnd(OneUnary(u)) == YieldUnary(u) && (ValidAnd(e, OneUnary(u)) <==> ValidUnary(e, u));
  }

  /** A fully parenthesised derivation of the tree. */
  function Derivation(e: Env, n: Node): PrimD
    requires WellFormed(e, n)
  {
    match n
    case And(l, r) =>
      Group(OneAnd(MoreAnd(Single(Derivation(e, l)).a, true, Prim(Derivation(e, r)))))
    case Or(l, r) =>
      Group(MoreOr(Single(Derivation(e, l)), Single(Derivation(e, r)).a))
    case Not(x) => Group(OneAnd(OneUnary(NotD(Prim(Derivation(e, x))))))
    case Proto(name) => ProtoD(name)
    case Port(q, port) => Qualified(q, PortD(Decimal(port)))
    case Host(q, host) => Qualified(q, HostD(host))
    case Net(q, network) =>
      var k := SlashIndex(network);
      Qualified(q, NetD(network[..k], network[k + 1..]))
  }

  function Lexeme(sym: Sym): string
  {
    match sym
    case Kw(w) => w
    case Verbatim(w) => w
    case Open => "("
    case Close => ")"
    case Stroke => "/"
  }

  /** The terminals as text, each followed by one space. */
  function Render(syms: seq<Sym>): string
  {
    if syms == [] then "" else Lexeme(syms[0]) + " " + Render(syms[1..])
  }

  function Print(e: Env, n: Node): string
    requires WellFormed(e, n)
  {
    Render(YieldPrim(Derivation(e, n)))
  }

  // ------------------------------------------------------------------ the derivation has the tree

  lemma {:induction false} DerivationTree(e: Env, n: Node)
    requires WellFormed(e, n)
    ensures ValidPrim(e, Derivation(e, n)) && TreePrim(e, Derivation(e, n)) == n
  {
    match n
    case And(l, r) =>
      DerivationTree(e, l);
      DerivationTree(e, r);
      ConjoinedIs(e, Derivation(e, l), Derivation(e, r));
    case Or(l, r) =>
      DerivationTree(e, l);
      DerivationTree(e, r);
      DisjoinedIs(e, Derivation(e, l), Derivation(e, r));
    case Not(x) => DerivationTree(e, x); NegatedIs(e, Derivation(e, x));
    case Proto(name) =>
    case Port(q, port) => NumberOfDecimal(port);
    case Host(q, host) =>
    case Net(q, network) =>
      var k := SlashIndex(network);
      assert network[..k] + "/" + network[k + 1..] == network;
  }

  // ------------------------------------------------------------------ the text has the terminals

  /** Terminals whose text is one token of the right kind. */
  predicate Printable(sym: Sym)
  {
    match sym
    case Kw(w) => IsPlainWord(w) && Lower(w) == w
    case Verbatim(w) => IsPlainWord(w)
    case _ => true
  }

  predicate AllPrintable(syms: seq<Sym>) { forall k :: 0 <= k < |syms| ==> Printable(syms[k]) }

  lemma KeywordsPrintable(w: string)
    requires w in STARTS || w in {"and", "or"}
    ensures Printable(Kw(w))
  {
    assert Lower(w) == w;
  }

  lemma AppendPrintable(a: seq<Sym>, b: seq<Sym>)
    requires AllPrintable(a) && AllPrintable(b)
    ensures AllPrintable(a + b)
  {
    hide Printable;
  }

  lemma GroupPrintable(o: OrD)
    requires AllPrintable(YieldOr(o))
    ensures AllPrintable(YieldPrim(Group(o)))
  {
    hide AllPrintable, YieldOr;
    OnePrintable(Open);
    OnePrintable(Close);
    AppendPrintable(YieldOr(o), [Close]);
    AppendPrintable([Open], YieldOr(o) + [Close]);
  }

  lemma OnePrintable(sym: Sym)
    ensures Printable(Open) && Printable(Close)
    ensures Printable(sym) ==> AllPrintable([sym])
  {
  }

  lemma JoinPrintable(a: seq<Sym>, word: string, b: seq<Sym>)
    requires AllPrintable(a) && AllPrintable(b) && word in {"and", "or"}
    ensures AllPrintable(a + ([Kw(word)] + b))
  {
    hide AllPrintable, Printable;
    KeywordsPrintable(word);
    OnePrintable(Kw(word));
    AppendPrintable([Kw(word)], b);
    AppendPrintable(a, [Kw(word)] + b);
  }

  lemma NegatedPrintable(a: seq<Sym>)
    requires AllPrintable(a)
    ensures AllPrintable([Kw("not")] + a)
  {
    hide AllPrintable, Printable;
    KeywordsPrintable("not");
    OnePrintable(Kw("not"));
    AppendPrintable([Kw("not")], a);
  }

  /** The terms without an operator. */
  lemma TermPrintable(e: Env, n: Node)
    requires WellFormed(e, n) && (n.Proto? || n.Port? || n.Host? || n.Net?)
    ensures AllPrintable(YieldPrim(Derivation(e, n)))
  {
    hide Printable;
    match n
    case Proto(name) => KeywordsPrintable(name);
    case Port(q, port) =>
      NumberOfDecimal(port);
      DigitsPrintable(Decimal(port));
      KeywordsPrintable("port");
      QualifierPrintable(q);
    case Host(q, host) =>
      WordPrintable(host);
      KeywordsPrintable("host");
      QualifierPrintable(q);
    case Net(q, network) =>
      var k := SlashIndex(network);
      WordPrintable(network[..k]);
      DigitsPrintable(network[k + 1..]);
      KeywordsPrintable("net");
      QualifierPrintable(q);
      Punctuation();
  }

  lemma {:induction false} DerivationPrintable(e: Env, n: Node)
    requires WellFormed(e, n)
    ensures AllPrintable(YieldPrim(Derivation(e, n)))
  {
    hide Printable, AllPrintable, YieldPrim, YieldOr;
    match n
    case And(l, r) =>
      DerivationPrintable(e, l);
      DerivationPrintable(e, r);
      var p, q := Derivation(e, l), Derivation(e, r);
      ConjoinedIs(e, p, q);
      JoinPrintable(YieldPrim(p), "and", YieldPrim(q));
      GroupPrintable(Derivation(e, n).o);
    case Or(l, r) =>
      DerivationPrintable(e, l);
      DerivationPrintable(e, r);
      var p, q := Derivation(e, l), Derivation(e, r);
      DisjoinedIs(e, p, q);
      JoinPrintable(YieldPrim(p), "or", YieldPrim(q));
      GroupPrintable(Derivation(e, n).o);
    case Not(x) =>
      DerivationPrintable(e, x);
      NegatedIs(e, Derivation(e, x));
      NegatedPrintable(YieldPrim(Derivation(e, x)));
      GroupPrintable(Derivation(e, n).o);
    case Proto(_) => TermPrintable(e, n);
    case Port(_, _) => TermPrintable(e, n);
    case Host(_, _) => TermPrintable(e, n);
    case Net(_, _) => TermPrintable(e, n);
  }

  lemma Punctuation()
    ensures Printable(Open) && Printable(Close) && Printable(Stroke)
  {
  }

  lemma WordPrintable(w: string)
    ensures IsPlainWord(w) ==> Printable(Verbatim(w))
  {
  }

  lemma DigitsPrintable(w: string)
    requires IsDigits(w)
    ensures Printable(Verbatim(w))
  {
  }

  lemma QualifierPrintable(q: Option<Qualifier>)
    ensures AllPrintable(YieldQ(q))
  {
    KeywordsPrintable("src");
    KeywordsPrintable("dst");
  }

  /** A plain word that a space follows is one token. */
  lemma {:induction false} WordIsToken(expr: string, i: nat, end: nat)
    requires i <= end < |expr| && expr[end] == ' '
    requires forall k :: i <= k < end ==> IsWordChar(expr[k])
    ensures WordEnd(expr, i) == end
    decreases end - i
  {
    if i < end { WordIsToken(expr, i + 1, end); }
  }

  lemma LexemeToken(expr: string, i: nat, sym: Sym)
    requires Printable(sym) && i + |Lexeme(sym)| < |expr|
    requires expr[i..i + |Lexeme(sym)|] == Lexeme(sym) && expr[i + |Lexeme(sym)|] == ' '
    ensures |Lexeme(sym)| > 0 && !IsSpace(expr[i])
    ensures TokenAt(expr, i).value == Lexeme(sym) && Fits(TokenAt(expr, i), sym)
  {
    var w := Lexeme(sym);
    assert forall k :: 0 <= k < |w| ==> expr[i + k] == expr[i..i + |w|][k] == w[k];
    if sym.Kw? || sym.Verbatim? {
      assert forall k :: i <= k < i + |w| ==> expr[k] == w[k - i];
      WordIsToken(expr, i, i + |w|);
    }
  }

  /** Tokenising rendered terminals gives tokens that fit them. */
  lemma {:induction false} RenderFits(expr: string, i: nat, syms: seq<Sym>)
    requires i <= |expr| && expr[i..] == Render(syms) && AllPrintable(syms)
    ensures var ts := TokensFrom(expr, i);
            |ts| == |syms| && forall k :: 0 <= k < |syms| ==> Fits(ts[k], syms[k])
    decreases |syms|
  {
    hide Fits, Printable, IsSpace, TokenAt, Lexeme;
    if syms != [] {
      var w := Lexeme(syms[0]);
      var next := i + |w| + 1;
      var rest := Render(syms[1..]);
      assert |expr[i..]| == |w + " " + rest|;
      assert expr[i..i + |w|] == expr[i..][..|w|] == w;
      assert expr[i + |w|] == expr[i..][|w|] == ' ';
      assert expr[next..] == expr[i..][|w| + 1..] == rest;
      LexemeToken(expr, i, syms[0]);
      RenderFits(expr, next, syms[1..]);
      OneSpace(expr, i + |w|);
      assert TokensFrom(expr, i) == [TokenAt(expr, i)] + TokensFrom(expr, next);
    }
  }

  lemma OneSpace(expr: string, i: nat)
    requires i < |expr| && expr[i] == ' '
    ensures TokensFrom(expr, i) == TokensFrom(expr, i + 1)
  {
  }

  /** An expression that strips to nothing has no tokens. */
  lemma {:induction false} BlankHasNoTokens(expr: string, i: nat)
    requires i <= |expr| && Strip(expr[i..]) == ""
    ensures TokensFrom(expr, i) == []
    decreases |expr| - i
  {
    if i < |expr| {
      var s := expr[i..];
      if IsSpace(expr[i]) {
        assert s[1..] == expr[i + 1..];
        BlankHasNoTokens(expr, i + 1);
      } else {
        assert StripLeft(s) == s;
        StripRightKeeps(s);
        assert false;
      }
    }
  }

  lemma {:induction false} StripRightKeeps(s: string)
    requires s != "" && !IsSpace(s[0])
    ensures StripRight(s) != ""
    decreases |s|
  {
    if IsSpace(s[|s| - 1]) { StripRightKeeps(s[..|s| - 1]); }
  }

  /** Printing a well-formed tree and parsing the text gives the tree back. */
  lemma PrintParse(e: Env, n: Node)
    requires WellFormed(e, n)
    ensures Parse(e, Print(e, n)) == Ok(n)
  {
    hide Fits, Printable, Strip, TokensFrom, Derivation, Render, WellFormed, ParseAll, Within, ValidOr, YieldOr;
    var text := Print(e, n);
    var p := Derivation(e, n);
    DerivationTree(e, n);
    DerivationPrintable(e, n);
    SingleIs(e, p);
    assert text[0..] == text;
    RenderFits(text, 0, YieldPrim(p));
    TokensWithin(text, 0);
    DerivedIsParsed(e, Source(TokensFrom(text, 0), |text|), Single(p));
    NonBlank(text);
    var first := FirstOf(p);
  }

  lemma NonBlank(text: string)
    ensures TokensFrom(text, 0) != [] ==> text != "" && Strip(text) != ""
  {
    assert text[0..] == text;
    if Strip(text) == "" { BlankHasNoTokens(text, 0); }
  }

  // ------------------------------------------------------------------ parses are well-formed

  /** What is assumed of the network parser: the text it gives for a network is canonical. */
  ghost predicate Canonicalises(e: Env)
  {
    forall text, network :: e.network(text) == Some(network) ==> CanonicalNetwork(e, network)
  }

  predicate PlainSyms(syms: seq<Sym>)
  {
    forall k :: 0 <= k < |syms| ==> syms[k].Verbatim? ==> IsPlainWord(syms[k].word)
  }

  lemma PlainParts(a: seq<Sym>, b: seq<Sym>)
    ensures PlainSyms(a + b) ==> PlainSyms(a) && PlainSyms(b)
  {
    if PlainSyms(a + b) {
      assert forall k :: 0 <= k < |a| ==> (a + b)[k] == a[k];
      forall k | 0 <= k < |b|
        ensures b[k].Verbatim? ==> IsPlainWord(b[k].word)
      {
        assert (a + b)[|a| + k] == b[k];
      }
    }
  }

  lemma {:induction false} WordsArePlain(expr: string, i: nat)
    requires i <= |expr|
    ensures forall k :: 0 <= k < |TokensFrom(expr, i)| ==>
              TokensFrom(expr, i)[k].kind == Word ==> IsPlainWord(TokensFrom(expr, i)[k].value)
    decreases |expr| - i
  {
    if i < |expr| {
      if IsSpace(expr[i]) {
        WordsArePlain(expr, i + 1);
      } else {
        WordsArePlain(expr, i + |TokenAt(expr, i).value|);
        WordIsWordChar(expr[i]);
      }
    }
  }

  lemma OperandWellFormed(e: Env, q: Option<Qualifier>, x: OperandD)
    requires Canonicalises(e) && ValidOperand(e, x) && PlainSyms(YieldOperand(x))
    ensures WellFormed(e, TreeOperand(e, q, x))
  {
    hide CanonicalNetwork, IsPlainWord;
    match x
    case PortD(digits) =>
    case HostD(addr) => assert YieldOperand(x)[1] == Verbatim(addr);
    case NetD(addr, prefix) =>
  }

  lemma {:induction false} OrWellFormed(e: Env, o: OrD)
    requires Canonicalises(e) && ValidOr(e, o) && PlainSyms(YieldOr(o))
    ensures WellFormed(e, TreeOr(e, o))
  {
    hide PlainSyms, Canonicalises;
    match o
    case OneAnd(a) => AndWellFormed(e, a);
    case MoreOr(l, r) =>
      PlainParts(YieldOr(l), [Kw("or")] + YieldAnd(r));
      PlainParts([Kw("or")], YieldAnd(r));
      OrWellFormed(e, l);
      AndWellFormed(e, r);
  }

  lemma {:induction false} AndWellFormed(e: Env, a: AndD)
    requires Canonicalises(e) && ValidAnd(e, a) && PlainSyms(YieldAnd(a))
    ensures WellFormed(e, TreeAnd(e, a))
  {
    hide PlainSyms, Canonicalises;
    match a
    case OneUnary(u) => UnaryWellFormed(e, u);
    case MoreAnd(l, spelled, r) =>
      var joint := if spelled then [Kw("and")] else [];
      PlainParts(YieldAnd(l), joint + YieldUnary(r));
      PlainParts(joint, YieldUnary(r));
      AndWellFormed(e, l);
      UnaryWellFormed(e, r);
  }

  lemma {:induction false} UnaryWellFormed(e: Env, u: UnaryD)
    requires Canonicalises(e) && ValidUnary(e, u) && PlainSyms(YieldUnary(u))
    ensures WellFormed(e, TreeUnary(e, u))
  {
    hide PlainSyms, Canonicalises;
    match u
    case NotD(x) =>
      PlainParts([Kw("not")], YieldUnary(x));
      UnaryWellFormed(e, x);
    case Prim(p) => PrimWellFormed(e, p);
  }

  lemma {:induction false} PrimWellFormed(e: Env, p: PrimD)
    requires Canonicalises(e) && ValidPrim(e, p) && PlainSyms(YieldPrim(p))
    ensures WellFormed(e, TreePrim(e, p))
  {
    hide PlainSyms, Canonicalises;
    match p
    case Group(o) =>
      PlainParts([Open], YieldOr(o) + [Close]);
      PlainParts(YieldOr(o), [Close]);
      OrWellFormed(e, o);
    case ProtoD(name) =>
    case Qualified(q, x) =>
      PlainParts(YieldQ(q), YieldOperand(x));
      OperandWellFormed(e, q, x);
  }

  lemma DerivedWordsArePlain(e: Env, s: Source, d: OrD)
    requires Derives(e, s, d)
    requires forall k :: 0 <= k < |s.tokens| ==> s.tokens[k].kind == Word ==> IsPlainWord(s.tokens[k].value)
    ensures PlainSyms(YieldOr(d))
  {
    hide ValidOr, YieldOr, IsPlainWord;
    var syms := YieldOr(d);
    forall k | 0 <= k < |syms|
      ensures syms[k].Verbatim? ==> IsPlainWord(syms[k].word)
    {
      assert Fits(s.tokens[0 + k], syms[k]);
    }
  }

  /** Every accepted text parses to a well-formed tree, so printing it gives a text that parses to the same tree. */
  lemma ParsedIsWellFormed(e: Env, expr: string, n: Node)
    requires Canonicalises(e) && Parse(e, expr) == Ok(n)
    ensures WellFormed(e, n) && Parse(e, Print(e, n)) == Ok(n)
  {
    hide Canonicalises, ParseAll, FitsAt, ValidOr, YieldOr, PlainSyms, WellFormed, TreeOr, Strip, TokensFrom, Within;
    hide IsPlainWord, Print;
    TokensWithin(expr, 0);
    WordsArePlain(expr, 0);
    var s := Source(TokensFrom(expr, 0), |expr|);
    ParserIsGrammar(e, s, n);
    var d :| Derives(e, s, d) && TreeOr(e, d) == n;
    DerivedWordsArePlain(e, s, d);
    OrWellFormed(e, d);
    PrintParse(e, n);
  }
}
