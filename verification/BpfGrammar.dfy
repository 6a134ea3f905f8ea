/** The grammar of the filter language as derivation trees, and the proof that the parser accepts exactly what
    it derives, with one tree for every accepted token list. */
module BpfGrammar {
  import opened Wrappers
  import opened Text
  import opened BpfTokens
  import opened BpfParser

  // ------------------------------------------------------------------ derivations

  datatype OrD = OneAnd(a: AndD) | MoreOr(l: OrD, r: AndD)

  /** `spelled`: whether the conjunction is written "and" or by juxtaposition. */
  datatype AndD = OneUnary(u: UnaryD) | MoreAnd(l: AndD, spelled: bool, r: UnaryD)

  datatype UnaryD = NotD(u: UnaryD) | Prim(p: PrimD)

  datatype PrimD =
    | Group(o: OrD)
    | ProtoD(name: string)
    | Qualified(q: Option<Qualifier>, x: OperandD)

  datatype OperandD = PortD(digits: string) | HostD(addr: string) | NetD(addr: string, prefix: string)

  /** A terminal: a keyword in any case, a verbatim word, or punctuation. */
  datatype Sym = Kw(word: string) | Verbatim(word: string) | Open | Close | Stroke

  function YieldQ(q: Option<Qualifier>): seq<Sym>
  {
    if q.None? then [] else [Kw(if q.value.Src? then "src" else "dst")]
  }

  function YieldOr(o: OrD): seq<Sym>
  {
    match o
    case OneAnd(a) => YieldAnd(a)
    case MoreOr(l, r) => YieldOr(l) + ([Kw("or")] + YieldAnd(r))
  }

  function YieldAnd(a: AndD): seq<Sym>
  {
    match a
    case OneUnary(u) => YieldUnary(u)
    case MoreAnd(l, spelled, r) => YieldAnd(l) + ((if spelled then [Kw("and")] else []) + YieldUnary(r))
  }

  function YieldUnary(u: UnaryD): seq<Sym>
  {
    match u
    case NotD(x) => [Kw("not")] + YieldUnary(x)
    case Prim(p) => YieldPrim(p)
  }

  function YieldPrim(p: PrimD): seq<Sym>
  {
    match p
    case Group(o) => [Open] + (YieldOr(o) + [Close])
    case ProtoD(name) => [Kw(name)]
    case Qualified(q, x) => YieldQ(q) + YieldOperand(x)
  }

  function YieldOperand(x: OperandD): seq<Sym>
  {
    match x
    case PortD(digits) => [Kw("port"), Verbatim(digits)]
    case HostD(addr) => [Kw("host"), Verbatim(addr)]
    case NetD(addr, prefix) => [Kw("net"), Verbatim(addr), Stroke, Verbatim(prefix)]
  }

  /** The side conditions on the operands. */
  predicate ValidOr(e: Env, o: OrD)
  {
    match o case OneAnd(a) => ValidAnd(e, a) case MoreOr(l, r) => ValidOr(e, l) && ValidAnd(e, r)
  }

  predicate ValidAnd(e: Env, a: AndD)
  {
    match a case OneUnary(u) => ValidUnary(e, u) case MoreAnd(l, _, r) => ValidAnd(e, l) && ValidUnary(e, r)
  }

  predicate ValidUnary(e: Env, u: UnaryD)
  {
    match u case NotD(x) => ValidUnary(e, x) case Prim(p) => ValidPrim(e, p)
  }

  predicate ValidPrim(e: Env, p: PrimD)
  {
    match p
    case Group(o) => ValidOr(e, o)
    case ProtoD(name) => name in PROTOCOLS
    case Qualified(_, x) => ValidOperand(e, x)
  }

  predicate ValidOperand(e: Env, x: OperandD)
  {
    match x
    case PortD(digits) => IsDigits(digits) && Number(digits) <= 65535
    case HostD(addr) => e.isIp(addr)
    case NetD(addr, prefix) => IsDigits(prefix) && e.network(addr + "/" + prefix).Some?
  }

  /** The abstract tree of a derivation: left-associative, with both spellings of "and" alike. */
  function TreeOr(e: Env, o: OrD): Node
    requires ValidOr(e, o)
  {
    match o case OneAnd(a) => TreeAnd(e, a) case MoreOr(l, r) => Or(TreeOr(e, l), TreeAnd(e, r))
  }

  function TreeAnd(e: Env, a: AndD): Node
    requires ValidAnd(e, a)
  {
    match a case OneUnary(u) => TreeUnary(e, u) case MoreAnd(l, _, r) => And(TreeAnd(e, l), TreeUnary(e, r))
  }

  function TreeUnary(e: Env, u: UnaryD): Node
    requires ValidUnary(e, u)
  {
    match u case NotD(x) => Not(TreeUnary(e, x)) case Prim(p) => TreePrim(e, p)
  }

  function TreePrim(e: Env, p: PrimD): Node
    requires ValidPrim(e, p)
  {
    match p
    case Group(o) => TreeOr(e, o)
    case ProtoD(name) => Proto(name)
    case Qualified(q, x) => TreeOperand(e, q, x)
  }

  function TreeOperand(e: Env, q: Option<Qualifier>, x: OperandD): Node
    requires ValidOperand(e, x)
  {
    match x
    case PortD(digits) => Port(q, Number(digits))
    case HostD(addr) => Host(q, addr)
    case NetD(addr, prefix) => Net(q, e.network(addr + "/" + prefix).value)
  }

  // ------------------------------------------------------------------ terminals and tokens

  predicate Fits(t: Token, sym: Sym)
  {
    match sym
    case Kw(w) => t.kind == Word && Lower(t.value) == w
    case Verbatim(w) => t.kind == Word && t.value == w
    case Open => t.kind == LParen
    case Close => t.kind == RParen
    case Stroke => t.kind == Slash
  }

  /** The tokens from `i` on begin with these terminals. */
  predicate FitsAt(s: Source, i: nat, syms: seq<Sym>)
  {
    i + |syms| <= |s.tokens| && forall k :: 0 <= k < |syms| ==> Fits(s.tokens[i + k], syms[k])
  }

  lemma FitsSplit(s: Source, i: nat, a: seq<Sym>, b: seq<Sym>)
    ensures FitsAt(s, i, a + b) <==> FitsAt(s, i, a) && FitsAt(s, i + |a|, b)
  {
    hide Fits;
    if FitsAt(s, i, a + b) {
      forall k | 0 <= k < |a| ensures Fits(s.tokens[i + k], a[k]) { assert (a + b)[k] == a[k]; }
      forall k | 0 <= k < |b| ensures Fits(s.tokens[i + |a| + k], b[k]) { assert (a + b)[|a| + k] == b[k]; }
    }
    if FitsAt(s, i, a) && FitsAt(s, i + |a|, b) {
      forall k | 0 <= k < |a + b| ensures Fits(s.tokens[i + k], (a + b)[k]) {
        if k >= |a| { assert Fits(s.tokens[i + |a| + (k - |a|)], b[k - |a|]); }
      }
    }
  }

  lemma FitsOne(s: Source, i: nat, sym: Sym)
    ensures FitsAt(s, i, [sym]) <==> i < |s.tokens| && Fits(s.tokens[i], sym)
  {
    if i < |s.tokens| && Fits(s.tokens[i], sym) { assert [sym][0] == sym; }
    if FitsAt(s, i, [sym]) { assert Fits(s.tokens[i + 0], [sym][0]); }
  }

  lemma FitsKw(s: Source, i: nat, word: string)
    ensures FitsAt(s, i, [Kw(word)]) <==> IsWord(s, i, word)
  {
    FitsOne(s, i, Kw(word));
  }

  /** No conjunction can go on here: neither "and" nor the start of a term. */
  predicate AndStops(s: Source, i: nat) { !IsWord(s, i, "and") && !StartsPrimary(s, i) }

  // ------------------------------------------------------------------ every derivation is accepted

  /** The first terminal of a term. */
  function FirstOf(p: PrimD): (sym: Sym)
    ensures |YieldPrim(p)| > 0 && YieldPrim(p)[0] == sym
  {
    YieldPrim(p)[0]
  }

  lemma PrimStarts(e: Env, s: Source, i: nat, p: PrimD)
    requires ValidPrim(e, p) && FitsAt(s, i, YieldPrim(p))
    ensures StartsPrimary(s, i) && !IsWord(s, i, "and") && !IsWord(s, i, "not")
    ensures if p.Group? then IsKind(s, i, LParen) else IsKind(s, i, Word)
  {
    assert Fits(s.tokens[i + 0], FirstOf(p));
    if p.Qualified? && p.q.None? { assert FirstOf(p) == YieldOperand(p.x)[0]; }
  }

  lemma {:induction false} UnaryStarts(e: Env, s: Source, i: nat, u: UnaryD)
    requires ValidUnary(e, u) && FitsAt(s, i, YieldUnary(u))
    ensures StartsPrimary(s, i) && !IsWord(s, i, "and")
  {
    match u
    case NotD(x) => assert Fits(s.tokens[i + 0], YieldUnary(u)[0]);
    case Prim(p) => PrimStarts(e, s, i, p);
  }

  lemma OperandAccepted(e: Env, s: Source, i: nat, q: Option<Qualifier>, x: OperandD)
    requires ValidSource(s) && ValidOperand(e, x) && FitsAt(s, i, YieldOperand(x))
    ensures Operand(e, s, q, i) == Good(TreeOperand(e, q, x), i + |YieldOperand(x)|)
    ensures IsKind(s, i, Word) && Lower(s.tokens[i].value) in {"port", "host", "net"}
  {
    var y := YieldOperand(x);
    assert Fits(s.tokens[i + 0], y[0]) && Fits(s.tokens[i + 1], y[1]);
    if x.NetD? { assert Fits(s.tokens[i + 2], y[2]) && Fits(s.tokens[i + 3], y[3]); }
  }

  lemma {:induction false} PrimAccepted(e: Env, s: Source, i: nat, p: PrimD)
    requires ValidSource(s) && ValidPrim(e, p) && FitsAt(s, i, YieldPrim(p))
    ensures Primary(e, s, i) == Good(TreePrim(e, p), i + |YieldPrim(p)|)
    decreases p
  {
    match p
    case Group(o) =>
      FitsSplit(s, i, [Open], YieldOr(o) + [Close]);
      FitsSplit(s, i + 1, YieldOr(o), [Close]);
      FitsOne(s, i, Open);
      FitsOne(s, i + 1 + |YieldOr(o)|, Close);
      OrAccepted(e, s, i + 1, o);
    case ProtoD(name) => FitsOne(s, i, Kw(name));
    case Qualified(q, x) => QualifiedAccepted(e, s, i, q, x);
  }

  lemma QualifiedAccepted(e: Env, s: Source, i: nat, q: Option<Qualifier>, x: OperandD)
    requires ValidSource(s) && ValidOperand(e, x) && FitsAt(s, i, YieldQ(q) + YieldOperand(x))
    ensures Primary(e, s, i) == Good(TreeOperand(e, q, x), i + |YieldQ(q)| + |YieldOperand(x)|)
  {
    hide Operand, OrExpr, FitsAt, ValidOperand, TreeOperand, YieldOperand, Fits;
    FitsSplit(s, i, YieldQ(q), YieldOperand(x));
    OperandAccepted(e, s, i + |YieldQ(q)|, q, x);
    if q.Some? { FitsKw(s, i, if q.value.Src? then "src" else "dst"); }
  }

  lemma {:induction false} UnaryAccepted(e: Env, s: Source, i: nat, u: UnaryD)
    requires ValidSource(s) && ValidUnary(e, u) && FitsAt(s, i, YieldUnary(u))
    ensures Unary(e, s, i) == Good(TreeUnary(e, u), i + |YieldUnary(u)|)
    decreases u
  {
    match u
    case NotD(x) =>
      FitsSplit(s, i, [Kw("not")], YieldUnary(x));
      FitsOne(s, i, Kw("not"));
      UnaryAccepted(e, s, i + 1, x);
    case Prim(p) =>
      PrimAccepted(e, s, i, p);
      PrimStarts(e, s, i, p);
  }

  /** A conjunction is read term by term, whatever follows it. */
  lemma {:induction false} AndAccepted(e: Env, s: Source, i: nat, a: AndD)
    requires ValidSource(s) && ValidAnd(e, a) && FitsAt(s, i, YieldAnd(a))
    ensures AndExpr(e, s, i) == AndLoop(e, s, TreeAnd(e, a), i + |YieldAnd(a)|)
    decreases a
  {
    hide FitsAt, Fits, Unary, IsWord, StartsPrimary;
    match a
    case OneUnary(u) => UnaryAccepted(e, s, i, u);
    case MoreAnd(l, spelled, r) =>
      var j := i + |YieldAnd(l)|;
      var joint := if spelled then [Kw("and")] else [];
      FitsSplit(s, i, YieldAnd(l), joint + YieldUnary(r));
      FitsSplit(s, j, joint, YieldUnary(r));
      AndAccepted(e, s, i, l);
      if spelled { FitsKw(s, j, "and"); } else { UnaryStarts(e, s, j, r); }
      UnaryAccepted(e, s, j + |joint|, r);
  }

  /** A disjunction is read operand by operand when no conjunction can go on after it. */
  lemma {:induction false} OrPrefix(e: Env, s: Source, i: nat, o: OrD)
    requires ValidSource(s) && ValidOr(e, o) && FitsAt(s, i, YieldOr(o)) && AndStops(s, i + |YieldOr(o)|)
    ensures OrExpr(e, s, i) == OrLoop(e, s, TreeOr(e, o), i + |YieldOr(o)|)
    decreases o, 0
  {
    hide FitsAt, Fits;
    match o
    case OneAnd(a) => AndAccepted(e, s, i, a);
    case MoreOr(l, r) =>
      var j := i + |YieldOr(l)|;
      FitsSplit(s, i, YieldOr(l), [Kw("or")] + YieldAnd(r));
      FitsSplit(s, j, [Kw("or")], YieldAnd(r));
      FitsKw(s, j, "or");
      OrPrefix(e, s, i, l);
      AndAccepted(e, s, j + 1, r);
  }

  lemma {:induction false} OrAccepted(e: Env, s: Source, i: nat, o: OrD)
    requires ValidSource(s) && ValidOr(e, o) && FitsAt(s, i, YieldOr(o))
    requires var j := i + |YieldOr(o)|; j < |s.tokens| ==> s.tokens[j].kind == RParen
    ensures OrExpr(e, s, i) == Good(TreeOr(e, o), i + |YieldOr(o)|)
    decreases o, 1
  {
    OrPrefix(e, s, i, o);
  }

  // ------------------------------------------------------------------ everything accepted has a derivation

  lemma {:induction false} SoundOr(e: Env, s: Source, i: nat) returns (o: OrD)
    requires ValidSource(s) && OrExpr(e, s, i).Good?
    ensures ValidOr(e, o) && FitsAt(s, i, YieldOr(o))
    ensures OrExpr(e, s, i) == Good(TreeOr(e, o), i + |YieldOr(o)|)
    decreases |s.tokens| - i, 5
  {
    hide FitsAt;
    var a := SoundAnd(e, s, i);
    o := SoundOrLoop(e, s, OneAnd(a), i);
  }

  /** Extends the derivation of what lies between `i` and the cursor. */
  lemma {:induction false} SoundOrLoop(e: Env, s: Source, d: OrD, i: nat) returns (o: OrD)
    requires ValidSource(s) && ValidOr(e, d) && FitsAt(s, i, YieldOr(d))
    requires 0 < |YieldOr(d)| && i + |YieldOr(d)| <= |s.tokens|
    requires OrLoop(e, s, TreeOr(e, d), i + |YieldOr(d)|).Good?
    ensures ValidOr(e, o) && FitsAt(s, i, YieldOr(o))
    ensures OrLoop(e, s, TreeOr(e, d), i + |YieldOr(d)|) == Good(TreeOr(e, o), i + |YieldOr(o)|)
    decreases |s.tokens| - i - |YieldOr(d)|, 6
  {
    hide FitsAt, IsWord;
    var j := i + |YieldOr(d)|;
    o := d;
    if IsWord(s, j, "or") {
      var a := SoundAnd(e, s, j + 1);
      FitsKw(s, j, "or");
      FitsSplit(s, j, [Kw("or")], YieldAnd(a));
      FitsSplit(s, i, YieldOr(d), [Kw("or")] + YieldAnd(a));
      o := SoundOrLoop(e, s, MoreOr(d, a), i);
    }
  }

  lemma {:induction false} SoundAnd(e: Env, s: Source, i: nat) returns (a: AndD)
    requires ValidSource(s) && AndExpr(e, s, i).Good?
    ensures ValidAnd(e, a) && FitsAt(s, i, YieldAnd(a))
    ensures AndExpr(e, s, i) == Good(TreeAnd(e, a), i + |YieldAnd(a)|)
    decreases |s.tokens| - i, 3
  {
    hide FitsAt;
    var u := SoundUnary(e, s, i);
    a := SoundAndLoop(e, s, OneUnary(u), i);
  }

  lemma {:induction false} SoundAndLoop(e: Env, s: Source, d: AndD, i: nat) returns (a: AndD)
    requires ValidSource(s) && ValidAnd(e, d) && FitsAt(s, i, YieldAnd(d))
    requires 0 < |YieldAnd(d)| && i + |YieldAnd(d)| <= |s.tokens|
    requires AndLoop(e, s, TreeAnd(e, d), i + |YieldAnd(d)|).Good?
    ensures ValidAnd(e, a) && FitsAt(s, i, YieldAnd(a))
    ensures AndLoop(e, s, TreeAnd(e, d), i + |YieldAnd(d)|) == Good(TreeAnd(e, a), i + |YieldAnd(a)|)
    decreases |s.tokens| - i - |YieldAnd(d)|, 4
  {
    hide FitsAt, IsWord, StartsPrimary, YieldAnd, ValidAnd, TreeAnd, AndLoop;
    var j := i + |YieldAnd(d)|;
    a := d;
    if !IsWord(s, j, "and") && !StartsPrimary(s, j) {
      AndLoopStops(e, s, d, j);
    } else {
      var spelled := IsWord(s, j, "and");
      AndLoopGoesOn(e, s, d, j);
      var u := SoundUnary(e, s, if spelled then j + 1 else j);
      JoinFits(s, i, d, spelled, u);
      AndLoopStep(e, s, d, j, u);
      a := SoundAndLoop(e, s, MoreAnd(d, spelled, u), i);
    }
  }

  lemma AndLoopStops(e: Env, s: Source, d: AndD, j: nat)
    requires ValidSource(s) && ValidAnd(e, d) && j <= |s.tokens| && !IsWord(s, j, "and") && !StartsPrimary(s, j)
    ensures AndLoop(e, s, TreeAnd(e, d), j) == Good(TreeAnd(e, d), j)
  {
  }

  lemma AndLoopGoesOn(e: Env, s: Source, d: AndD, j: nat)
    requires ValidSource(s) && ValidAnd(e, d) && j <= |s.tokens| && (IsWord(s, j, "and") || StartsPrimary(s, j))
    requires AndLoop(e, s, TreeAnd(e, d), j).Good?
    ensures j < |s.tokens| && Unary(e, s, if IsWord(s, j, "and") then j + 1 else j).Good?
  {
    hide Unary, TreeAnd;
  }

  lemma AndLoopStep(e: Env, s: Source, d: AndD, j: nat, u: UnaryD)
    requires ValidSource(s) && ValidAnd(e, d) && ValidUnary(e, u) && j <= |s.tokens|
    requires IsWord(s, j, "and") || StartsPrimary(s, j)
    requires var k := if IsWord(s, j, "and") then j + 1 else j;
             Unary(e, s, k) == Good(TreeUnary(e, u), k + |YieldUnary(u)|)
    ensures var spelled := IsWord(s, j, "and");
            var more := MoreAnd(d, spelled, u);
            var k := j + (if spelled then 1 else 0) + |YieldUnary(u)|;
            && ValidAnd(e, more) && |YieldAnd(more)| == |YieldAnd(d)| + (if spelled then 1 else 0) + |YieldUnary(u)|
            && k <= |s.tokens| && AndLoop(e, s, TreeAnd(e, d), j) == AndLoop(e, s, TreeAnd(e, more), k)
  {
    hide Unary, IsWord, StartsPrimary, TreeUnary, YieldUnary;
  }

  lemma JoinFits(s: Source, i: nat, d: AndD, spelled: bool, u: UnaryD)
    requires var j := i + |YieldAnd(d)|;
             && FitsAt(s, i, YieldAnd(d)) && (spelled ==> IsWord(s, j, "and"))
             && FitsAt(s, if spelled then j + 1 else j, YieldUnary(u))
    ensures FitsAt(s, i, YieldAnd(MoreAnd(d, spelled, u)))
  {
    hide FitsAt, IsWord;
    var j := i + |YieldAnd(d)|;
    var joint := if spelled then [Kw("and")] else [];
    if spelled { FitsKw(s, j, "and"); } else { assert [] + YieldUnary(u) == YieldUnary(u); }
    if spelled { FitsSplit(s, j, joint, YieldUnary(u)); }
    FitsSplit(s, i, YieldAnd(d), joint + YieldUnary(u));
  }

  lemma NothingFits(s: Source, i: nat)
    ensures i <= |s.tokens| ==> FitsAt(s, i, [])
  {
  }

  lemma {:induction false} SoundUnary(e: Env, s: Source, i: nat) returns (u: UnaryD)
    requires ValidSource(s) && Unary(e, s, i).Good?
    ensures ValidUnary(e, u) && FitsAt(s, i, YieldUnary(u))
    ensures Unary(e, s, i) == Good(TreeUnary(e, u), i + |YieldUnary(u)|)
    decreases |s.tokens| - i, 2
  {
    hide FitsAt, IsWord;
    if IsWord(s, i, "not") {
      var x := SoundUnary(e, s, i + 1);
      u := NotD(x);
      FitsKw(s, i, "not");
      FitsSplit(s, i, [Kw("not")], YieldUnary(x));
    } else {
      var p := SoundPrim(e, s, i);
      u := Prim(p);
    }
  }

  lemma {:induction false} SoundPrim(e: Env, s: Source, i: nat) returns (p: PrimD)
    requires ValidSource(s) && Primary(e, s, i).Good?
    ensures ValidPrim(e, p) && FitsAt(s, i, YieldPrim(p))
    ensures Primary(e, s, i) == Good(TreePrim(e, p), i + |YieldPrim(p)|)
    decreases |s.tokens| - i, 1
  {
    hide FitsAt, Operand;
    if IsKind(s, i, LParen) {
      var o := SoundOr(e, s, i + 1);
      p := Group(o);
      FitsOne(s, i, Open);
      FitsOne(s, i + 1 + |YieldOr(o)|, Close);
      FitsSplit(s, i + 1, YieldOr(o), [Close]);
      FitsSplit(s, i, [Open], YieldOr(o) + [Close]);
    } else {
      var lower := Lower(s.tokens[i].value);
      if lower in PROTOCOLS {
        p := ProtoD(lower);
        FitsOne(s, i, Kw(lower));
      } else {
        p := SoundQualified(e, s, i);
      }
    }
  }

  lemma SoundQualified(e: Env, s: Source, i: nat) returns (p: PrimD)
    requires ValidSource(s) && IsKind(s, i, Word) && Lower(s.tokens[i].value) !in PROTOCOLS && Primary(e, s, i).Good?
    ensures ValidPrim(e, p) && FitsAt(s, i, YieldPrim(p))
    ensures Primary(e, s, i) == Good(TreePrim(e, p), i + |YieldPrim(p)|)
  {
    hide FitsAt, Operand, OrExpr;
    var lower := Lower(s.tokens[i].value);
    var q := if lower == "src" then Some(Src) else if lower == "dst" then Some(Dst) else None;
    var j := if q.Some? then i + 1 else i;
    var x := SoundOperand(e, s, q, j);
    p := Qualified(q, x);
    if q.Some? { FitsKw(s, i, lower); } else { NothingFits(s, i); }
    FitsSplit(s, i, YieldQ(q), YieldOperand(x));
  }

  lemma SoundOperand(e: Env, s: Source, q: Option<Qualifier>, i: nat) returns (x: OperandD)
    requires ValidSource(s) && Operand(e, s, q, i).Good?
    ensures ValidOperand(e, x) && FitsAt(s, i, YieldOperand(x))
    ensures Operand(e, s, q, i) == Good(TreeOperand(e, q, x), i + |YieldOperand(x)|)
  {
    hide FitsAt, Number, IsDigits;
    var lower, arg := Lower(s.tokens[i].value), s.tokens[i + 1].value;
    FitsPair(s, i, lower, arg);
    if lower == "port" {
      x := PortD(arg);
    } else if lower == "host" {
      x := HostD(arg);
    } else {
      x := NetD(arg, s.tokens[i + 3].value);
      FitsOne(s, i + 2, Stroke);
      FitsOne(s, i + 3, Verbatim(x.prefix));
      FitsSplit(s, i + 2, [Stroke], [Verbatim(x.prefix)]);
      FitsSplit(s, i, [Kw("net"), Verbatim(arg)], [Stroke] + [Verbatim(x.prefix)]);
      assert YieldOperand(x) == [Kw("net"), Verbatim(arg)] + ([Stroke] + [Verbatim(x.prefix)]);
    }
  }

  lemma FitsPair(s: Source, i: nat, word: string, arg: string)
    requires IsWord(s, i, word) && IsKind(s, i + 1, Word) && s.tokens[i + 1].value == arg
    ensures FitsAt(s, i, [Kw(word), Verbatim(arg)])
  {
    hide FitsAt;
    FitsKw(s, i, word);
    FitsOne(s, i + 1, Verbatim(arg));
    FitsSplit(s, i, [Kw(word)], [Verbatim(arg)]);
    assert [Kw(word)] + [Verbatim(arg)] == [Kw(word), Verbatim(arg)];
  }

  // ------------------------------------------------------------------ main results

  /** `d` is a derivation of these tokens. */
  predicate Derives(e: Env, s: Source, d: OrD)
  {
    ValidOr(e, d) && |YieldOr(d)| == |s.tokens| && FitsAt(s, 0, YieldOr(d))
  }

  /** A derivation fixes the outcome: the parser accepts, with the derivation's tree. */
  lemma DerivedIsParsed(e: Env, s: Source, d: OrD)
    requires ValidSource(s) && Derives(e, s, d)
    ensures ParseAll(e, s) == Ok(TreeOr(e, d))
  {
    OrAccepted(e, s, 0, d);
  }

  /** The parser accepts exactly the token lists the grammar derives, and returns the tree of every derivation. */
  lemma ParserIsGrammar(e: Env, s: Source, n: Node)
    requires ValidSource(s)
    ensures ParseAll(e, s) == Ok(n) <==> exists d :: Derives(e, s, d) && TreeOr(e, d) == n
  {
    if ParseAll(e, s) == Ok(n) {
      var d := SoundOr(e, s, 0);
      assert Derives(e, s, d) && TreeOr(e, d) == n;
    }
    forall d | Derives(e, s, d) && TreeOr(e, d) == n ensures ParseAll(e, s) == Ok(n) {
      DerivedIsParsed(e, s, d);
    }
  }

  /** The derivation with every conjunction spelled out. */
  function SpellOr(o: OrD): OrD
  {
    match o case OneAnd(a) => OneAnd(SpellAnd(a)) case MoreOr(l, r) => MoreOr(SpellOr(l), SpellAnd(r))
  }

  function SpellAnd(a: AndD): AndD
  {
    match a
    case OneUnary(u) => OneUnary(SpellUnary(u))
    case MoreAnd(l, _, r) => MoreAnd(SpellAnd(l), true, SpellUnary(r))
  }

  function SpellUnary(u: UnaryD): UnaryD
  {
    match u
    case NotD(x) => NotD(SpellUnary(x))
    case Prim(p) => Prim(if p.Group? then Group(SpellOr(p.o)) else p)
  }

  lemma {:induction false} SpellKeepsOr(e: Env, o: OrD)
    requires ValidOr(e, o)
    ensures ValidOr(e, SpellOr(o)) && TreeOr(e, SpellOr(o)) == TreeOr(e, o)
  {
    match o
    case OneAnd(a) => SpellKeepsAnd(e, a);
    case MoreOr(l, r) => SpellKeepsOr(e, l); SpellKeepsAnd(e, r);
  }

  lemma {:induction false} SpellKeepsAnd(e: Env, a: AndD)
    requires ValidAnd(e, a)
    ensures ValidAnd(e, SpellAnd(a)) && TreeAnd(e, SpellAnd(a)) == TreeAnd(e, a)
  {
    match a
    case OneUnary(u) => SpellKeepsUnary(e, u);
    case MoreAnd(l, _, r) => SpellKeepsAnd(e, l); SpellKeepsUnary(e, r);
  }

  lemma {:induction false} SpellKeepsUnary(e: Env, u: UnaryD)
    requires ValidUnary(e, u)
    ensures ValidUnary(e, SpellUnary(u)) && TreeUnary(e, SpellUnary(u)) == TreeUnary(e, u)
  {
    match u
    case NotD(x) => SpellKeepsUnary(e, x);
    case Prim(p) => if p.Group? { SpellKeepsOr(e, p.o); }
  }

  /** Token lists whose derivations differ only in which conjunctions are spelled "and" parse to the same tree. */
  lemma AndIsOptional(e: Env, s: Source, d: OrD, t: Source, c: OrD)
    requires ValidSource(s) && ValidSource(t) && Derives(e, s, d) && Derives(e, t, c) && SpellOr(d) == SpellOr(c)
    ensures ParseAll(e, s).Ok? && ParseAll(e, s) == ParseAll(e, t)
  {
    DerivedIsParsed(e, s, d);
    DerivedIsParsed(e, t, c);
    SpellKeepsOr(e, d);
    SpellKeepsOr(e, c);
  }
}
