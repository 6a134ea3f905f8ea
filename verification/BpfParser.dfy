/** The recursive-descent parser: the cursor class, and the function of tokens and position it computes. IP
    address and network parsing are foreign (`ipaddress`), so they are parameters. */
module BpfParser {
  import opened Wrappers
  import opened Text
  import opened BpfTokens

  datatype Qualifier = Src | Dst

  datatype Node =
    | And(left: Node, right: Node)
    | Or(left: Node, right: Node)
    | Not(operand: Node)
    | Proto(name: string)
    | Port(qualifier: Option<Qualifier>, port: nat)
    | Host(qualifier: Option<Qualifier>, host: string)
    | Net(qualifier: Option<Qualifier>, network: string)

  /** `network` gives the canonical text of a valid "address/prefix". */
  datatype Env = Env(isIp: string -> bool, network: string -> Option<string>)

  /** A source text: its tokens and its length. */
  datatype Source = Source(tokens: seq<Token>, len: nat)

  predicate ValidSource(s: Source) { Within(s.tokens, s.len) }

  /** A parsed node and the position after it, or the character position of a syntax error. */
  datatype Outcome = Good(node: Node, next: nat) | Bad(pos: nat)

  const PROTOCOLS := {"tcp", "udp", "icmp"}
  const STARTS := {"tcp", "udp", "icmp", "port", "host", "net", "src", "dst", "not"}

  function EndPos(s: Source): (p: nat)
    requires ValidSource(s)
    ensures p <= s.len
  {
    if s.tokens == [] then s.len else s.tokens[|s.tokens| - 1].pos + |s.tokens[|s.tokens| - 1].value|
  }

  /** Where the token at `i` starts, or the end of the text when there is none. */
  function PosAt(s: Source, i: nat): (p: nat)
    requires ValidSource(s)
    ensures p <= s.len
  {
    if i < |s.tokens| then s.tokens[i].pos else EndPos(s)
  }

  predicate IsKind(s: Source, i: nat, kind: Kind) { i < |s.tokens| && s.tokens[i].kind == kind }

  predicate IsWord(s: Source, i: nat, word: string) { IsKind(s, i, Word) && Lower(s.tokens[i].value) == word }

  predicate StartsPrimary(s: Source, i: nat)
  {
    IsKind(s, i, LParen) || (IsKind(s, i, Word) && Lower(s.tokens[i].value) in STARTS)
  }

  function OrExpr(e: Env, s: Source, i: nat): (r: Outcome)
    requires ValidSource(s)
    ensures if r.Good? then i < r.next <= |s.tokens| else r.pos <= s.len
    decreases |s.tokens| - i, 5
  {
    match AndExpr(e, s, i)
    case Bad(p) => Bad(p)
    case Good(node, next) => OrLoop(e, s, node, next)
  }

  function OrLoop(e: Env, s: Source, node: Node, i: nat): (r: Outcome)
    requires ValidSource(s) && i <= |s.tokens|
    ensures if r.Good? then i <= r.next <= |s.tokens| else r.pos <= s.len
    decreases |s.tokens| - i, 6
  {
    if IsWord(s, i, "or") then
      match AndExpr(e, s, i + 1)
      case Bad(p) => Bad(p)
      case Good(right, next) => OrLoop(e, s, Or(node, right), next)
    else Good(node, i)
  }

  function AndExpr(e: Env, s: Source, i: nat): (r: Outcome)
    requires ValidSource(s)
    ensures if r.Good? then i < r.next <= |s.tokens| else r.pos <= s.len
    decreases |s.tokens| - i, 3
  {
    match Unary(e, s, i)
    case Bad(p) => Bad(p)
    case Good(node, next) => AndLoop(e, s, node, next)
  }

  /** Juxtaposed terms are conjoined exactly as if "and" stood between them. */
  function AndLoop(e: Env, s: Source, node: Node, i: nat): (r: Outcome)
    requires ValidSource(s) && i <= |s.tokens|
    ensures if r.Good? then i <= r.next <= |s.tokens| else r.pos <= s.len
    decreases |s.tokens| - i, 4
  {
    if IsWord(s, i, "and") || StartsPrimary(s, i) then
      match Unary(e, s, if IsWord(s, i, "and") then i + 1 else i)
      case Bad(p) => Bad(p)
      case Good(right, next) => AndLoop(e, s, And(node, right), next)
    else Good(node, i)
  }

  function Unary(e: Env, s: Source, i: nat): (r: Outcome)
    requires ValidSource(s)
    ensures if r.Good? then i < r.next <= |s.tokens| else r.pos <= s.len
    decreases |s.tokens| - i, 2
  {
    if IsWord(s, i, "not") then
      match Unary(e, s, i + 1)
      case Bad(p) => Bad(p)
      case Good(node, next) => Good(Not(node), next)
    else Primary(e, s, i)
  }

  function Primary(e: Env, s: Source, i: nat): (r: Outcome)
    requires ValidSource(s)
    ensures if r.Good? then i < r.next <= |s.tokens| else r.pos <= s.len
    decreases |s.tokens| - i, 1
  {
    if IsKind(s, i, LParen) then
      match OrExpr(e, s, i + 1)
      case Bad(p) => Bad(p)
      case Good(node, next) => if IsKind(s, next, RParen) then Good(node, next + 1) else Bad(PosAt(s, next))
    else if !IsKind(s, i, Word) then Bad(PosAt(s, i))
    else
      var lower := Lower(s.tokens[i].value);
      if lower in PROTOCOLS then Good(Proto(lower), i + 1)
      else if lower == "src" then Operand(e, s, Some(Src), i + 1)
      else if lower == "dst" then Operand(e, s, Some(Dst), i + 1)
      else Operand(e, s, None, i)
  }

  /** The part of `_primary` after the optional qualifier. */
  function Operand(e: Env, s: Source, q: Option<Qualifier>, i: nat): (r: Outcome)
    requires ValidSource(s)
    ensures if r.Good? then i + 1 < r.next <= |s.tokens| else r.pos <= s.len
  {
    if !IsKind(s, i, Word) then Bad(PosAt(s, i))
    else
      var lower := Lower(s.tokens[i].value);
      if lower == "port" then
        if !IsKind(s, i + 1, Word) || !IsDigits(s.tokens[i + 1].value) then Bad(PosAt(s, i + 1))
        else
          var port := Number(s.tokens[i + 1].value);
          if port > 65535 then Bad(s.tokens[i + 1].pos) else Good(Port(q, port), i + 2)
      else if lower == "host" then
        if !IsKind(s, i + 1, Word) then Bad(PosAt(s, i + 1))
        else if !e.isIp(s.tokens[i + 1].value) then Bad(s.tokens[i + 1].pos)
        else Good(Host(q, s.tokens[i + 1].value), i + 2)
      else if lower == "net" then
        if !IsKind(s, i + 1, Word) then Bad(PosAt(s, i + 1))
        else if !IsKind(s, i + 2, Slash) then Bad(PosAt(s, i + 2))
        else if !IsKind(s, i + 3, Word) || !IsDigits(s.tokens[i + 3].value) then Bad(PosAt(s, i + 3))
        else
          var network := e.network(s.tokens[i + 1].value + "/" + s.tokens[i + 3].value);
          if network.None? then Bad(s.tokens[i + 1].pos) else Good(Net(q, network.value), i + 4)
      else Bad(s.tokens[i].pos)
  }

  /** The whole token list must be one expression. */
  function ParseAll(e: Env, s: Source): (r: Result<Node, nat>)
    requires ValidSource(s)
    ensures r.Err? ==> r.error <= s.len
  {
    match OrExpr(e, s, 0)
    case Bad(p) => Err(p)
    case Good(node, next) => if next < |s.tokens| then Err(s.tokens[next].pos) else Ok(node)
  }

  /** The outcome for a text. Every syntax error's position lies in the text or just past its end. */
  function Parse(e: Env, expr: string): (r: Result<Node, nat>)
    ensures r.Err? ==> r.error <= |expr|
  {
    TokensWithin(expr, 0);
    if expr == "" || Strip(expr) == "" || TokensFrom(expr, 0) == [] then Err(0)
    else ParseAll(e, Source(TokensFrom(expr, 0), |expr|))
  }

  /** The cursor: `self.i` moves over the tokens; each method leaves it after what it consumed. */
  class Parser {
    const e: Env
    const s: Source
    var i: nat

    constructor (e: Env, s: Source)
      ensures this.e == e && this.s == s && i == 0
    {
      this.e, this.s := e, s;
      i := 0;
    }

    method ParseOr() returns (r: Result<Node, nat>)
      requires ValidSource(s)
      modifies this`i
      ensures match OrExpr(e, s, old(i)) case Good(n, j) => r == Ok(n) && i == j case Bad(p) => r == Err(p)
      decreases |s.tokens| - i, 5
    {
      r := ParseAnd();
      if r.Err? { return; }
      while IsWord(s, i, "or")
        invariant r.Ok? && old(i) < i <= |s.tokens|
        invariant OrLoop(e, s, r.value, i) == OrExpr(e, s, old(i))
        decreases |s.tokens| - i
      {
        i := i + 1;
        var right := ParseAnd();
        if right.Err? { return right; }
        r := Ok(Or(r.value, right.value));
      }
    }

    method ParseAnd() returns (r: Result<Node, nat>)
      requires ValidSource(s)
      modifies this`i
      ensures match AndExpr(e, s, old(i)) case Good(n, j) => r == Ok(n) && i == j case Bad(p) => r == Err(p)
      decreases |s.tokens| - i, 3
    {
      r := ParseUnary();
      if r.Err? { return; }
      while true
        invariant r.Ok? && old(i) < i <= |s.tokens|
        invariant AndLoop(e, s, r.value, i) == AndExpr(e, s, old(i))
        decreases |s.tokens| - i
      {
        if IsWord(s, i, "and") {
          i := i + 1;
        } else if !StartsPrimary(s, i) {
          return;
        }
        var right := ParseUnary();
        if right.Err? { return right; }
        r := Ok(And(r.value, right.value));
      }
    }

    method ParseUnary() returns (r: Result<Node, nat>)
      requires ValidSource(s)
      modifies this`i
      ensures match Unary(e, s, old(i)) case Good(n, j) => r == Ok(n) && i == j case Bad(p) => r == Err(p)
      decreases |s.tokens| - i, 2
    {
      if IsWord(s, i, "not") {
        i := i + 1;
        r := ParseUnary();
        if r.Ok? { r := Ok(Not(r.value)); }
      } else {
        r := ParsePrimary();
      }
    }

    method ParsePrimary() returns (r: Result<Node, nat>)
      requires ValidSource(s)
      modifies this`i
      ensures match Primary(e, s, old(i)) case Good(n, j) => r == Ok(n) && i == j case Bad(p) => r == Err(p)
      decreases |s.tokens| - i, 1
    {
      if IsKind(s, i, LParen) {
        i := i + 1;
        r := ParseOr();
        if r.Err? { return; }
        if !IsKind(s, i, RParen) { return Err(PosAt(s, i)); }
        i := i + 1;
        return;
      }
      if !IsKind(s, i, Word) { return Err(PosAt(s, i)); }
      var lower := Lower(s.tokens[i].value);
      if lower in PROTOCOLS {
        i := i + 1;
        return Ok(Proto(lower));
      }
      var q: Option<Qualifier> := None;
      if lower == "src" || lower == "dst" {
        q := Some(if lower == "src" then Src else Dst);
        i := i + 1;
      }
      r := ParseOperand(q);
    }

    method ParseOperand(q: Option<Qualifier>) returns (r: Result<Node, nat>)
      requires ValidSource(s)
      modifies this`i
      ensures match Operand(e, s, q, old(i)) case Good(n, j) => r == Ok(n) && i == j case Bad(p) => r == Err(p)
    {
      if !IsKind(s, i, Word) { return Err(PosAt(s, i)); }
      var keyword := s.tokens[i];
      var lower := Lower(keyword.value);
      if lower != "port" && lower != "host" && lower != "net" { return Err(keyword.pos); }
      i := i + 1;
      if !IsKind(s, i, Word) || (lower == "port" && !IsDigits(s.tokens[i].value)) { return Err(PosAt(s, i)); }
      var arg := s.tokens[i];
      i := i + 1;
      if lower == "port" {
        var port := Number(arg.value);
        return if port > 65535 then Err(arg.pos) else Ok(Port(q, port));
      }
      if lower == "host" {
        return if e.isIp(arg.value) then Ok(Host(q, arg.value)) else Err(arg.pos);
      }
      if !IsKind(s, i, Slash) { return Err(PosAt(s, i)); }
      i := i + 1;
      if !IsKind(s, i, Word) || !IsDigits(s.tokens[i].value) { return Err(PosAt(s, i)); }
      var network := e.network(arg.value + "/" + s.tokens[i].value);
      i := i + 1;
      return if network.None? then Err(arg.pos) else Ok(Net(q, network.value));
    }
  }

  /** `parse_bpf`. */
  method ParseBpf(e: Env, expr: string) returns (r: Result<Node, nat>)
    ensures r == Parse(e, expr)
  {
    TokensWithin(expr, 0);
    if expr == "" || Strip(expr) == "" { return Err(0); }
    var tokens := Tokenize(expr);
    if tokens == [] { return Err(0); }
    var parser := new Parser(e, Source(tokens, |expr|));
    r := parser.ParseOr();
    if r.Ok? && parser.i < |tokens| { r := Err(tokens[parser.i].pos); }
  }
}
