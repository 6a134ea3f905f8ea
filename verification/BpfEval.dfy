/** What a filter means: the evaluator over packet fields, and what it makes of the grammar. */
module BpfEval {
  import opened Wrappers
  import opened Text
  import opened BpfTokens
  import opened BpfParser
  import opened BpfGrammar

  /** A stored packet; any field may be missing. */
  datatype Packet = Packet(
    protocol: Option<string>, srcAddr: Option<string>, srcPort: Option<int>,
    dstAddr: Option<string>, dstPort: Option<int>)

  /** Whether an address text lies in a network text; false for what is not an address. */
  type InNet = (string, string) -> bool

  predicate HasPort(port: Option<int>, n: nat) { port == Some(n) }

  predicate HasHost(addr: Option<string>, host: string) { addr == Some(host) }

  predicate Inside(inNet: InNet, addr: Option<string>, network: string)
  {
    addr.Some? && addr.value != "" && inNet(addr.value, network)
  }

  /** `evaluate`. */
  predicate Evaluate(inNet: InNet, n: Node, p: Packet)
  {
    match n
    case And(l, r) => Evaluate(inNet, l, p) && Evaluate(inNet, r, p)
    case Or(l, r) => Evaluate(inNet, l, p) || Evaluate(inNet, r, p)
    case Not(x) => !Evaluate(inNet, x, p)
    case Proto(name) => Lower(if p.protocol.Some? then p.protocol.value else "") == name
    case Port(q, port) =>
      if q == Some(Src) then HasPort(p.srcPort, port) else if q == Some(Dst) then HasPort(p.dstPort, port)
      else HasPort(p.srcPort, port) || HasPort(p.dstPort, port)
    case Host(q, host) =>
      if q == Some(Src) then HasHost(p.srcAddr, host) else if q == Some(Dst) then HasHost(p.dstAddr, host)
      else HasHost(p.srcAddr, host) || HasHost(p.dstAddr, host)
    case Net(q, network) =>
      if q == Some(Src) then Inside(inNet, p.srcAddr, network)
      else if q == Some(Dst) then Inside(inNet, p.dstAddr, network)
      else Inside(inNet, p.srcAddr, network) || Inside(inNet, p.dstAddr, network)
  }

  // ------------------------------------------------------------------ what the grammar's words mean

  /** One end of a packet. */
  datatype End = End(addr: Option<string>, port: Option<int>)

  function SourceEnd(p: Packet): End { End(p.srcAddr, p.srcPort) }

  function DestinationEnd(p: Packet): End { End(p.dstAddr, p.dstPort) }

  /** What an operand asks of an end. */
  predicate Meets(e: Env, inNet: InNet, x: OperandD, end: End)
    requires ValidOperand(e, x)
  {
    match x
    case PortD(digits) => end.port == Some(Number(digits))
    case HostD(addr) => end.addr == Some(addr)
    case NetD(addr, prefix) =>
      end.addr.Some? && end.addr.value != "" && inNet(end.addr.value, e.network(addr + "/" + prefix).value)
  }

  predicate OrMeans(e: Env, inNet: InNet, o: OrD, p: Packet)
    requires ValidOr(e, o)
  {
    match o
    case OneAnd(a) => AndMeans(e, inNet, a, p)
    case MoreOr(l, r) => OrMeans(e, inNet, l, p) || AndMeans(e, inNet, r, p)
  }

  predicate AndMeans(e: Env, inNet: InNet, a: AndD, p: Packet)
    requires ValidAnd(e, a)
  {
    match a
    case OneUnary(u) => UnaryMeans(e, inNet, u, p)
    case MoreAnd(l, _, r) => AndMeans(e, inNet, l, p) && UnaryMeans(e, inNet, r, p)
  }

  predicate UnaryMeans(e: Env, inNet: InNet, u: UnaryD, p: Packet)
    requires ValidUnary(e, u)
  {
    match u
    case NotD(x) => !UnaryMeans(e, inNet, x, p)
    case Prim(x) => PrimMeans(e, inNet, x, p)
  }

  /** A protocol is the packet's, in any case; "src" asks the source end, "dst" the destination, and without a qualifier
      either may meet the operand. */
  predicate PrimMeans(e: Env, inNet: InNet, x: PrimD, p: Packet)
    requires ValidPrim(e, x)
  {
    match x
    case Group(o) => OrMeans(e, inNet, o, p)
    case ProtoD(name) => p.protocol.Some? && Lower(p.protocol.value) == name
    case Qualified(q, operand) =>
      || (q != Some(Dst) && Meets(e, inNet, operand, SourceEnd(p)))
      || (q != Some(Src) && Meets(e, inNet, operand, DestinationEnd(p)))
  }

  lemma {:induction false} OrTreeMeans(e: Env, inNet: InNet, o: OrD, p: Packet)
    requires ValidOr(e, o)
    ensures Evaluate(inNet, TreeOr(e, o), p) <==> OrMeans(e, inNet, o, p)
  {
    match o
    case OneAnd(a) => AndTreeMeans(e, inNet, a, p);
    case MoreOr(l, r) =>
      OrTreeMeans(e, inNet, l, p);
      AndTreeMeans(e, inNet, r, p);
  }

  lemma {:induction false} AndTreeMeans(e: Env, inNet: InNet, a: AndD, p: Packet)
    requires ValidAnd(e, a)
    ensures Evaluate(inNet, TreeAnd(e, a), p) <==> AndMeans(e, inNet, a, p)
  {
    match a
    case OneUnary(u) => UnaryTreeMeans(e, inNet, u, p);
    case MoreAnd(l, _, r) =>
      AndTreeMeans(e, inNet, l, p);
      UnaryTreeMeans(e, inNet, r, p);
  }

  lemma {:induction false} UnaryTreeMeans(e: Env, inNet: InNet, u: UnaryD, p: Packet)
    requires ValidUnary(e, u)
    ensures Evaluate(inNet, TreeUnary(e, u), p) <==> UnaryMeans(e, inNet, u, p)
  {
    match u
    case NotD(x) => UnaryTreeMeans(e, inNet, x, p);
    case Prim(x) => PrimTreeMeans(e, inNet, x, p);
  }

  lemma {:induction false} PrimTreeMeans(e: Env, inNet: InNet, x: PrimD, p: Packet)
    requires ValidPrim(e, x)
    ensures Evaluate(inNet, TreePrim(e, x), p) <==> PrimMeans(e, inNet, x, p)
  {
    match x
    case Group(o) => OrTreeMeans(e, inNet, o, p);
    case ProtoD(_) =>
    case Qualified(_, _) =>
  }

  // ------------------------------------------------------------------ precedence

  /** The parts of an expression between its top-level "or"s. */
  function Alternatives(o: OrD): seq<AndD>
  {
    match o case OneAnd(a) => [a] case MoreOr(l, r) => Alternatives(l) + [r]
  }

  /** The terms of such a part, however they are joined. */
  function Terms(a: AndD): seq<UnaryD>
  {
    match a case OneUnary(u) => [u] case MoreAnd(l, _, r) => Terms(l) + [r]
  }

  predicate TermHolds(e: Env, inNet: InNet, u: UnaryD, p: Packet)
  {
    ValidUnary(e, u) && UnaryMeans(e, inNet, u, p)
  }

  predicate AllHold(e: Env, inNet: InNet, us: seq<UnaryD>, p: Packet)
  {
    forall i :: 0 <= i < |us| ==> TermHolds(e, inNet, us[i], p)
  }

  predicate SomeHolds(e: Env, inNet: InNet, parts: seq<AndD>, p: Packet)
  {
    exists i :: 0 <= i < |parts| && AllHold(e, inNet, Terms(parts[i]), p)
  }

  lemma {:induction false} TermsMeaning(e: Env, inNet: InNet, a: AndD, p: Packet)
    requires ValidAnd(e, a)
    ensures Evaluate(inNet, TreeAnd(e, a), p) <==> AllHold(e, inNet, Terms(a), p)
  {
    hide TermHolds;
    match a
    case OneUnary(u) =>
      TermIs(e, inNet, u, p);
      assert Terms(a)[0] == u;
    case MoreAnd(l, _, r) =>
      TermsMeaning(e, inNet, l, p);
      TermIs(e, inNet, r, p);
      AllHoldSnoc(e, inNet, Terms(l), r, p);
  }

  lemma TermIs(e: Env, inNet: InNet, u: UnaryD, p: Packet)
    requires ValidUnary(e, u)
    ensures TermHolds(e, inNet, u, p) <==> Evaluate(inNet, TreeUnary(e, u), p)
  {
    UnaryTreeMeans(e, inNet, u, p);
  }

  lemma AllHoldSnoc(e: Env, inNet: InNet, us: seq<UnaryD>, u: UnaryD, p: Packet)
    ensures AllHold(e, inNet, us + [u], p) <==> AllHold(e, inNet, us, p) && TermHolds(e, inNet, u, p)
  {
    hide TermHolds;
    if AllHold(e, inNet, us + [u], p) {
      assert (us + [u])[|us|] == u;
      assert forall i :: 0 <= i < |us| ==> (us + [u])[i] == us[i];
    }
  }

  lemma SomeHoldsSnoc(e: Env, inNet: InNet, parts: seq<AndD>, a: AndD, p: Packet)
    ensures SomeHolds(e, inNet, parts + [a], p) <==> SomeHolds(e, inNet, parts, p) || AllHold(e, inNet, Terms(a), p)
  {
    hide AllHold, Terms;
    if i :| 0 <= i < |parts| && AllHold(e, inNet, Terms(parts[i]), p) { assert (parts + [a])[i] == parts[i]; }
    if AllHold(e, inNet, Terms(a), p) { assert (parts + [a])[|parts|] == a; }
  }

  lemma {:induction false} AlternativesMeaning(e: Env, inNet: InNet, o: OrD, p: Packet)
    requires ValidOr(e, o)
    ensures Evaluate(inNet, TreeOr(e, o), p) <==> SomeHolds(e, inNet, Alternatives(o), p)
  {
    hide AllHold, Terms, SomeHolds;
    match o
    case OneAnd(a) =>
      TermsMeaning(e, inNet, a, p);
      SomeHoldsSnoc(e, inNet, [], a, p);
      NoneHolds(e, inNet, p);
      assert [] + [a] == [a];
    case MoreOr(l, r) =>
      AlternativesMeaning(e, inNet, l, p);
      TermsMeaning(e, inNet, r, p);
      SomeHoldsSnoc(e, inNet, Alternatives(l), r, p);
  }

  lemma NoneHolds(e: Env, inNet: InNet, p: Packet)
    ensures !SomeHolds(e, inNet, [], p)
  {
  }

  /** An accepted filter matches a packet exactly when every term of one of its alternatives does: "or" binds
      loosest, juxtaposition like "and", and "not" takes one term. What a term means is told by the grammar's words. */
  lemma AcceptedMeans(e: Env, s: Source, d: OrD, n: Node, inNet: InNet, p: Packet)
    requires ValidSource(s) && Derives(e, s, d) && ParseAll(e, s) == Ok(n)
    ensures Evaluate(inNet, n, p) <==> SomeHolds(e, inNet, Alternatives(d), p)
  {
    hide SomeHolds, Alternatives, TreeOr;
    DerivedIsParsed(e, s, d);
    AlternativesMeaning(e, inNet, d, p);
  }

  // ------------------------------------------------------------------ direction

  function Swapped(p: Packet): Packet { Packet(p.protocol, p.dstAddr, p.dstPort, p.srcAddr, p.srcPort) }

  function OtherWay(q: Option<Qualifier>): Option<Qualifier>
  {
    if q.None? then None else Some(if q.value.Src? then Dst else Src)
  }

  /** The filter with every "src" and "dst" exchanged. */
  function Mirror(n: Node): Node
  {
    match n
    case And(l, r) => And(Mirror(l), Mirror(r))
    case Or(l, r) => Or(Mirror(l), Mirror(r))
    case Not(x) => Not(Mirror(x))
    case Proto(_) => n
    case Port(q, port) => Port(OtherWay(q), port)
    case Host(q, host) => Host(OtherWay(q), host)
    case Net(q, network) => Net(OtherWay(q), network)
  }

  /** A filter sees a packet as its mirror sees the reply; so a filter without qualifiers, its own mirror, keeps both
      directions of a conversation. */
  lemma {:induction false} MirrorSeesReplies(inNet: InNet, n: Node, p: Packet)
    ensures Evaluate(inNet, Mirror(n), p) == Evaluate(inNet, n, Swapped(p))
    ensures Mirror(n) == n ==> Evaluate(inNet, n, p) == Evaluate(inNet, n, Swapped(p))
  {
    match n
    case And(l, r) => MirrorSeesReplies(inNet, l, p); MirrorSeesReplies(inNet, r, p);
    case Or(l, r) => MirrorSeesReplies(inNet, l, p); MirrorSeesReplies(inNet, r, p);
    case Not(x) => MirrorSeesReplies(inNet, x, p);
    case Proto(_) =>
    case Port(_, _) =>
    case Host(_, _) =>
    case Net(_, _) =>
  }

  /** Every qualifier of the filter is this one. */
  predicate AsksOnly(n: Node, q: Qualifier)
  {
    match n
    case And(l, r) => AsksOnly(l, q) && AsksOnly(r, q)
    case Or(l, r) => AsksOnly(l, q) && AsksOnly(r, q)
    case Not(x) => AsksOnly(x, q)
    case Proto(_) => true
    case Port(x, _) => x == Some(q)
    case Host(x, _) => x == Some(q)
    case Net(x, _) => x == Some(q)
  }

  /** A filter with only "src" is decided by protocol and source end, one with only "dst" by protocol and destination
      end. */
  lemma {:induction false} OneEndDecides(inNet: InNet, n: Node, q: Qualifier, a: Packet, b: Packet)
    requires AsksOnly(n, q) && a.protocol == b.protocol
    requires if q.Src? then SourceEnd(a) == SourceEnd(b) else DestinationEnd(a) == DestinationEnd(b)
    ensures Evaluate(inNet, n, a) == Evaluate(inNet, n, b)
  {
    match n
    case And(l, r) => OneEndDecides(inNet, l, q, a, b); OneEndDecides(inNet, r, q, a, b);
    case Or(l, r) => OneEndDecides(inNet, l, q, a, b); OneEndDecides(inNet, r, q, a, b);
    case Not(x) => OneEndDecides(inNet, x, q, a, b);
    case Proto(_) =>
    case Port(_, _) =>
    case Host(_, _) =>
    case Net(_, _) =>
  }

  predicate Unqualified(n: Node)
  {
    match n
    case And(l, r) => Unqualified(l) && Unqualified(r)
    case Or(l, r) => Unqualified(l) && Unqualified(r)
    case Not(x) => Unqualified(x)
    case Proto(_) => true
    case Port(q, _) => q.None?
    case Host(q, _) => q.None?
    case Net(q, _) => q.None?
  }

  lemma {:induction false} UnqualifiedIsMirror(n: Node)
    ensures Unqualified(n) <==> Mirror(n) == n
  {
    match n
    case And(l, r) => UnqualifiedIsMirror(l); UnqualifiedIsMirror(r);
    case Or(l, r) => UnqualifiedIsMirror(l); UnqualifiedIsMirror(r);
    case Not(x) => UnqualifiedIsMirror(x);
    case Proto(_) =>
    case Port(_, _) =>
    case Host(_, _) =>
    case Net(_, _) =>
  }
}
