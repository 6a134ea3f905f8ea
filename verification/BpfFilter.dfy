/** The capture filter that is in force, and how a new one replaces it. */
module BpfFilter {
  import opened Wrappers
  import opened Text
  import opened BpfParser
  import BpfPrint

  /** The filter in force: its text and its parsed form. */
  datatype Filter = Off | On(expression: string, ast: Node)

  /** The answer to an update. */
  datatype Reply = Reply(valid: bool, errorAt: Option<nat>, active: bool)

  predicate IsBlank(expr: string) { Strip(expr) == "" }

  function Updated(e: Env, f: Filter, expr: string): Filter
  {
    if IsBlank(expr) then Off
    else
      match Parse(e, expr)
      case Ok(n) => On(expr, n)
      case Err(_) => f
  }

  class FilterState {
    const e: Env
    var expression: string
    var active: bool
    var compiled: Option<Node>

    ghost predicate Valid()
      reads this
    {
      active == compiled.Some? && (!active ==> expression == "")
    }

    ghost function Value(): Filter
      reads this
    {
      if compiled.Some? then On(expression, compiled.value) else Off
    }

    constructor (e: Env)
      ensures this.e == e && Valid() && Value() == Off
    {
      this.e, expression, active, compiled := e, "", false, None;
    }

    /** `try_set`. */
    method TrySet(expr: string) returns (r: Reply)
      requires Valid()
      modifies this
      ensures Valid() && Value() == Updated(e, old(Value()), expr)
      ensures r == if IsBlank(expr) then Reply(true, None, false)
                   else match Parse(e, expr)
                        case Ok(_) => Reply(true, None, true)
                        case Err(at) => Reply(false, Some(at), old(active))
    {
      if IsBlank(expr) {
        expression, active, compiled := "", false, None;
        return Reply(true, None, false);
      }
      var ast := ParseBpf(e, expr);
      if ast.Err? { return Reply(false, Some(ast.error), active); }
      expression, active, compiled := expr, true, Some(ast.value);
      return Reply(true, None, true);
    }
  }

  /** Blank is what has nothing but white space. */
  lemma {:induction false} BlankExactly(expr: string)
    ensures IsBlank(expr) <==> forall i :: 0 <= i < |expr| ==> IsSpace(expr[i])
    decreases |expr|
  {
    hide IsSpace, StripRight;
    if expr == "" {
      NothingStripped();
    } else if IsSpace(expr[0]) {
      BlankExactly(expr[1..]);
      assert forall i :: 1 <= i < |expr| ==> expr[i] == expr[1..][i - 1];
    } else {
      BpfPrint.StripRightKeeps(expr);
    }
  }

  lemma NothingStripped()
    ensures Strip("") == ""
  {
  }

  function After(e: Env, exprs: seq<string>): Filter
  {
    if exprs == [] then Off else Updated(e, After(e, exprs[..|exprs| - 1]), exprs[|exprs| - 1])
  }

  predicate Accepted(e: Env, expr: string) { IsBlank(expr) || Parse(e, expr).Ok? }

  /** The filter in force is always the last update that was accepted, whatever was refused since. */
  lemma {:induction false} LastAcceptedRules(e: Env, exprs: seq<string>, k: nat)
    requires k < |exprs| && Accepted(e, exprs[k]) && forall i :: k < i < |exprs| ==> !Accepted(e, exprs[i])
    ensures After(e, exprs) == if IsBlank(exprs[k]) then Off else On(exprs[k], Parse(e, exprs[k]).value)
  {
    hide IsBlank, Parse;
    if k < |exprs| - 1 { LastAcceptedRules(e, exprs[..|exprs| - 1], k); }
  }
}
