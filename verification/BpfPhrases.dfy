/** What short filter texts mean, from their words to the packets they match. The words are the tokens of the text, so
    neither spacing nor the case of keywords matters. */
module BpfPhrases {
  import opened Wrappers
  import opened Text
  import opened BpfTokens
  import opened BpfParser
  import opened BpfGrammar
  import opened BpfEval
  import BpfPrint

  function Words(expr: string): seq<Token> { TokensFrom(expr, 0) }

  /** The text as the parser sees it. */
  function Sentence(expr: string): (s: Source)
    ensures ValidSource(s)
  {
    TokensWithin(expr, 0);
    Source(Words(expr), |expr|)
  }

  predicate Says(t: Token, word: string) { t.kind == Word && Lower(t.value) == word }

  /** The text is an optional qualifier, the keyword and a number of further tokens. */
  predicate Asks(expr: string, q: string, keyword: string, more: nat)
  {
    var ts, k := Words(expr), if q == "" then 0 else 1;
    && q in {"", "src", "dst"} && |ts| == k + 1 + more
    && (q != "" ==> Says(ts[0], q)) && Says(ts[k], keyword)
  }

  /** The token `i` places behind the keyword. */
  function Behind(expr: string, q: string, i: nat): Token
    requires |Words(expr)| > if q == "" then i else i + 1
  {
    Words(expr)[if q == "" then i else i + 1]
  }

  /** The ends a qualifier asks: some end among them meets what is wanted. */
  predicate SomeEnd(q: string, source: bool, destination: bool)
  {
    (q in {"", "src"} && source) || (q in {"", "dst"} && destination)
  }

  // ------------------------------------------------------------------ a term that is the whole text

  lemma AloneParses(e: Env, s: Source)
    requires ValidSource(s) && s.tokens != [] && !IsWord(s, 0, "not")
    ensures match Primary(e, s, 0)
            case Bad(p) => ParseAll(e, s) == Err(p)
            case Good(n, next) => next == |s.tokens| ==> ParseAll(e, s) == Ok(n)
  {
    hide Primary;
    assert Unary(e, s, 0) == Primary(e, s, 0);
    if Primary(e, s, 0).Bad? {
      assert AndExpr(e, s, 0) == Bad(Primary(e, s, 0).pos);
      assert OrExpr(e, s, 0) == Bad(Primary(e, s, 0).pos);
    } else if Primary(e, s, 0).next == |s.tokens| {
      var n, end := Primary(e, s, 0).node, |s.tokens|;
      assert AndLoop(e, s, n, end) == Good(n, end) && OrLoop(e, s, n, end) == Good(n, end);
      assert AndExpr(e, s, 0) == Good(n, end);
      assert OrExpr(e, s, 0) == Good(n, end);
    }
  }

  lemma TextParses(e: Env, expr: string)
    requires Words(expr) != []
    ensures Parse(e, expr) == ParseAll(e, Sentence(expr))
  {
    hide ParseAll;
    if Strip(expr) == "" {
      assert expr[0..] == expr;
      BpfPrint.BlankHasNoTokens(expr, 0);
    }
  }

  lemma TermParses(e: Env, expr: string, q: string, keyword: string, more: nat)
    requires Asks(expr, q, keyword, more) && keyword in {"port", "host", "net"}
    ensures var s, k := Sentence(expr), if q == "" then 0 else 1;
            var qualifier := if q == "src" then Some(Src) else if q == "dst" then Some(Dst) else None;
            match Operand(e, s, qualifier, k)
            case Bad(p) => Parse(e, expr) == Err(p)
            case Good(n, next) => next == |s.tokens| ==> Parse(e, expr) == Ok(n)
  {
    hide Operand, ParseAll, TokensFrom, Parse;
    TextParses(e, expr);
    AloneParses(e, Sentence(expr));
  }

  // ------------------------------------------------------------------ ports, hosts, networks, protocols

  /** "port n", "src port n", "dst port n": accepted exactly for a decimal number in range, and matching exactly the
      packets with that port at an end asked for; refused at the operand. */
  lemma PortPhrase(e: Env, inNet: InNet, expr: string, q: string, p: Packet)
    requires Asks(expr, q, "port", 1)
    ensures var n := Behind(expr, q, 1);
            && (Parse(e, expr).Ok? <==> n.kind == Word && IsDigits(n.value) && Number(n.value) <= 65535)
            && (Parse(e, expr).Ok? ==>
                  (Evaluate(inNet, Parse(e, expr).value, p) <==>
                   SomeEnd(q, p.srcPort == Some(Number(n.value)), p.dstPort == Some(Number(n.value)))))
            && (Parse(e, expr).Err? ==> Parse(e, expr).error == n.pos)
  {
    hide TokensFrom, Parse;
    TermParses(e, expr, q, "port", 1);
  }

  /** The same for a host: accepted exactly for an address, matching exactly the packets with that very text. */
  lemma HostPhrase(e: Env, inNet: InNet, expr: string, q: string, p: Packet)
    requires Asks(expr, q, "host", 1)
    ensures var a := Behind(expr, q, 1);
            && (Parse(e, expr).Ok? <==> a.kind == Word && e.isIp(a.value))
            && (Parse(e, expr).Ok? ==>
                  (Evaluate(inNet, Parse(e, expr).value, p) <==>
                   SomeEnd(q, p.srcAddr == Some(a.value), p.dstAddr == Some(a.value))))
            && (Parse(e, expr).Err? ==> Parse(e, expr).error == a.pos)
  {
    hide TokensFrom, Parse;
    TermParses(e, expr, q, "host", 1);
  }

  /** An address is there and lies in the network. */
  predicate LiesIn(inNet: InNet, addr: Option<string>, network: string)
  {
    match addr case None => false case Some(a) => a != "" && inNet(a, network)
  }

  /** The same for a network: accepted exactly for an address, a slash and a prefix that make one, matching exactly the
      packets with an address of it. */
  lemma NetPhrase(e: Env, inNet: InNet, expr: string, q: string, p: Packet)
    requires Asks(expr, q, "net", 3)
    ensures var a, slash, prefix := Behind(expr, q, 1), Behind(expr, q, 2), Behind(expr, q, 3);
            var network := e.network(a.value + "/" + prefix.value);
            && (Parse(e, expr).Ok? <==> a.kind == Word && slash.kind == Slash && prefix.kind == Word
                                        && IsDigits(prefix.value) && network.Some?)
            && (Parse(e, expr).Ok? ==>
                  (Evaluate(inNet, Parse(e, expr).value, p) <==>
                   SomeEnd(q, LiesIn(inNet, p.srcAddr, network.value), LiesIn(inNet, p.dstAddr, network.value))))
            && (Parse(e, expr).Err? ==>
                  Parse(e, expr).error == if a.kind != Word then a.pos
                                          else if slash.kind != Slash then slash.pos
                                          else if prefix.kind != Word || !IsDigits(prefix.value) then prefix.pos
                                          else a.pos)
  {
    hide TokensFrom, Parse;
    TermParses(e, expr, q, "net", 3);
  }

  /** A term that breaks off before its operand is whole is refused at the end of its last word. */
  lemma CutPhrase(e: Env, expr: string, q: string, keyword: string, more: nat)
    requires Asks(expr, q, keyword, more) && keyword in {"port", "host", "net"}
    requires more == 0 || (keyword == "net" && more == 1 && Behind(expr, q, 1).kind == Word)
             || (keyword == "net" && more == 2 && Behind(expr, q, 1).kind == Word && Behind(expr, q, 2).kind == Slash)
    ensures var last := Words(expr)[|Words(expr)| - 1]; Parse(e, expr) == Err(last.pos + |last.value|)
  {
    hide TokensFrom, Parse;
    TermParses(e, expr, q, keyword, more);
  }

  /** A protocol name alone matches exactly the packets of that protocol. */
  lemma ProtocolPhrase(e: Env, inNet: InNet, expr: string, name: string, p: Packet)
    requires |Words(expr)| == 1 && name in {"tcp", "udp", "icmp"} && Says(Words(expr)[0], name)
    ensures Parse(e, expr).Ok?
    ensures Evaluate(inNet, Parse(e, expr).value, p) <==> p.protocol.Some? && Lower(p.protocol.value) == name
  {
    hide TokensFrom, Parse, ParseAll;
    TextParses(e, expr);
    AloneParses(e, Sentence(expr));
  }

  // ------------------------------------------------------------------ "not"

  predicate SameWords(a: seq<Token>, b: seq<Token>)
  {
    |a| == |b| && forall i :: 0 <= i < |a| ==> a[i].kind == b[i].kind && a[i].value == b[i].value
  }

  /** Putting "not" before a text that is one term turns its meaning round. */
  lemma NotPhrase(e: Env, inNet: InNet, expr: string, term: string, u: UnaryD, p: Packet)
    requires Words(term) != [] && Derives(e, Sentence(term), OneAnd(OneUnary(u)))
    requires Words(expr) != [] && Says(Words(expr)[0], "not") && SameWords(Words(expr)[1..], Words(term))
    ensures Parse(e, expr).Ok? && Parse(e, term).Ok?
    ensures Evaluate(inNet, Parse(e, expr).value, p) <==> !Evaluate(inNet, Parse(e, term).value, p)
  {
    hide TokensFrom, Parse, ParseAll, ValidUnary, TreeUnary;
    TextParses(e, expr);
    TextParses(e, term);
    NotDerives(e, expr, term, u);
    DerivedIsParsed(e, Sentence(term), OneAnd(OneUnary(u)));
    DerivedIsParsed(e, Sentence(expr), OneAnd(OneUnary(NotD(u))));
    NotTree(e, u);
  }

  lemma NotTree(e: Env, u: UnaryD)
    requires ValidUnary(e, u)
    ensures TreeOr(e, OneAnd(OneUnary(u))) == TreeUnary(e, u)
    ensures ValidUnary(e, NotD(u)) && TreeOr(e, OneAnd(OneUnary(NotD(u)))) == Not(TreeUnary(e, u))
  {
    assert TreeAnd(e, OneUnary(u)) == TreeUnary(e, u);
    assert TreeAnd(e, OneUnary(NotD(u))) == TreeUnary(e, NotD(u));
  }

  lemma NotDerives(e: Env, expr: string, term: string, u: UnaryD)
    requires Derives(e, Sentence(term), OneAnd(OneUnary(u)))
    requires Words(expr) != [] && Says(Words(expr)[0], "not") && SameWords(Words(expr)[1..], Words(term))
    ensures ValidUnary(e, u) && Derives(e, Sentence(expr), OneAnd(OneUnary(NotD(u))))
  {
    hide TokensFrom;
    var s, t, a, b := Sentence(expr), Sentence(term), OneAnd(OneUnary(NotD(u))), OneAnd(OneUnary(u));
    OneTerm(e, u);
    OneTerm(e, NotD(u));
    assert YieldUnary(NotD(u)) == [Kw("not")] + YieldUnary(u);
    forall k | 0 <= k < |YieldOr(a)|
      ensures Fits(s.tokens[k], YieldOr(a)[k])
    {
      if k > 0 {
        assert YieldOr(a)[k] == YieldOr(b)[k - 1] && s.tokens[1..][k - 1] == s.tokens[k];
        assert Fits(t.tokens[0 + (k - 1)], YieldOr(b)[k - 1]);
      }
    }
  }

  lemma OneTerm(e: Env, u: UnaryD)
    ensures YieldOr(OneAnd(OneUnary(u))) == YieldUnary(u)
    ensures ValidOr(e, OneAnd(OneUnary(u))) <==> ValidUnary(e, u)
    ensures ValidUnary(e, NotD(u)) <==> ValidUnary(e, u)
  {
    assert YieldAnd(OneUnary(u)) == YieldUnary(u);
    assert ValidAnd(e, OneUnary(u)) <==> ValidUnary(e, u);
  }
}
