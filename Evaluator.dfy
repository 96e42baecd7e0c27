/** The constraint evaluator: the list of clauses a parsed constraint
    expression leaves behind, the constants the parser created, and the
    registry of server-side functions the expression may call. */
module Evaluator {
  import opened Wrappers
  import opened Variables

  /** Handles standing for the C++ function pointers and the parser's
      rvalues; only their identity matters here. */
  type FuncId = nat
  type RvalueId = nat

  /** A clause: a relational operator with its operands, a call of a
      boolean function, or a call of a function returning a variable. */
  datatype Clause =
    | Relational(op: int, lhs: RvalueId, rhs: seq<RvalueId>)
    | BoolCall(bfunc: FuncId, args: seq<RvalueId>)
    | BtpCall(btfunc: FuncId, args: seq<RvalueId>)

  /** `boolean_clause()`: the clause yields a truth value. */
  predicate IsBoolean(c: Clause)
  {
    c.Relational? || c.BoolCall?
  }

  /** `value_clause()`: the clause yields a variable. */
  predicate IsValue(c: Clause)
  {
    c.BtpCall?
  }

  /** The three kinds of registered function. */
  datatype FuncKind = BoolFunc | BtpFunc | ProjFunc

  /** A registry entry: a name and one pointer per kind, null (`None`)
      for the kinds the entry was not created with. */
  datatype FunctionEntry = FunctionEntry(name: string, bFunc: Option<FuncId>, btFunc: Option<FuncId>, pFunc: Option<FuncId>)

  /** The entry `add_function(name, f)` creates for a function of kind
      `k`. */
  function Entry(name: string, k: FuncKind, f: Option<FuncId>): (e: FunctionEntry)
    ensures e.name == name && Slot(e, k) == f
    ensures forall k' :: k' != k ==> Slot(e, k').None?
  {
    match k
    case BoolFunc => FunctionEntry(name, f, None, None)
    case BtpFunc => FunctionEntry(name, None, f, None)
    case ProjFunc => FunctionEntry(name, None, None, f)
  }

  /** The entry's pointer of kind `k`. */
  function Slot(e: FunctionEntry, k: FuncKind): Option<FuncId>
  {
    match k
    case BoolFunc => e.bFunc
    case BtpFunc => e.btFunc
    case ProjFunc => e.pFunc
  }

  /** The entry answers a search for `name` and kind `k`. */
  predicate Provides(e: FunctionEntry, name: string, k: FuncKind)
  {
    e.name == name && Slot(e, k).Some?
  }

  /** The function a search for `name` and kind `k` finds: the pointer of
      the first entry that provides it. */
  function Registered(fs: seq<FunctionEntry>, name: string, k: FuncKind): Option<FuncId>
  {
    if fs == [] then None
    else if Provides(fs[0], name, k) then Slot(fs[0], k)
    else Registered(fs[1..], name, k)
  }

  /** Some entry before position `n` carries the name. */
  predicate NamedBefore(fs: seq<FunctionEntry>, name: string, n: nat)
  {
    exists j :: 0 <= j < n && j < |fs| && fs[j].name == name
  }

  /** A search succeeds exactly when some entry provides the function, and
      then yields the pointer of the first such entry. */
  lemma {:induction false} RegisteredFirst(fs: seq<FunctionEntry>, name: string, k: FuncKind)
    ensures Registered(fs, name, k).None? <==> forall j :: 0 <= j < |fs| ==> !Provides(fs[j], name, k)
    ensures Registered(fs, name, k).Some? ==>
      exists j :: 0 <= j < |fs| && Provides(fs[j], name, k) && Registered(fs, name, k) == Slot(fs[j], k) &&
        forall i :: 0 <= i < j ==> !Provides(fs[i], name, k)
    decreases |fs|
  {
    if fs != [] && !Provides(fs[0], name, k) {
      RegisteredFirst(fs[1..], name, k);
      if Registered(fs, name, k).Some? {
        var j :| 0 <= j < |fs[1..]| && Provides(fs[1..][j], name, k) && Registered(fs, name, k) == Slot(fs[1..][j], k) &&
          forall i :: 0 <= i < j ==> !Provides(fs[1..][i], name, k);
        assert Provides(fs[j + 1], name, k);
        forall i | 0 <= i < j + 1
          ensures !Provides(fs[i], name, k)
        {
          if i > 0 {
            assert fs[i] == fs[1..][i - 1];
          }
        }
      }
      forall j | 0 <= j < |fs| && Registered(fs, name, k).None?
        ensures !Provides(fs[j], name, k)
      {
        if j > 0 {
          assert fs[j] == fs[1..][j - 1];
        }
      }
    }
  }

  /** Registering a function never shadows an earlier entry: the new one
      is found only when nothing before it provides the name and kind. */
  lemma {:induction false} RegisteredAppend(fs: seq<FunctionEntry>, e: FunctionEntry, name: string, k: FuncKind)
    ensures Registered(fs + [e], name, k) ==
      if Registered(fs, name, k).Some? then Registered(fs, name, k)
      else if Provides(e, name, k) then Slot(e, k)
      else None
    decreases |fs|
  {
    if fs == [] {
      assert ([] + [e])[1..] == [];
    } else {
      assert (fs + [e])[0] == fs[0];
      assert (fs + [e])[1..] == fs[1..] + [e];
      RegisteredAppend(fs[1..], e, name, k);
    }
  }

  /** The value of a selection: the clauses in order, stopping at the
      first false one; a non-boolean clause reached before that is an
      error. */
  function Selection(cs: seq<Clause>, value: Clause -> bool): Result<bool>
  {
    if cs == [] then Ok(true)
    else if !IsBoolean(cs[0]) then Err(InternalErr("A selection expression must contain only boolean clauses."))
    else if !value(cs[0]) then Ok(false)
    else Selection(cs[1..], value)
  }

  /** Every clause before position `n` is boolean and true. */
  predicate PassesBefore(cs: seq<Clause>, value: Clause -> bool, n: nat)
  {
    forall i :: 0 <= i < n && i < |cs| ==> IsBoolean(cs[i]) && value(cs[i])
  }

  /** A selection is true exactly when every clause is boolean and true. */
  lemma {:induction false} SelectionTrue(cs: seq<Clause>, value: Clause -> bool)
    ensures Selection(cs, value) == Ok(true) <==> PassesBefore(cs, value, |cs|)
    decreases |cs|
  {
    if cs != [] {
      SelectionTrue(cs[1..], value);
      if IsBoolean(cs[0]) && value(cs[0]) {
        PassesShift(cs, value, |cs| - 1);
      }
    }
  }

  /** A selection is false exactly when it reaches a false boolean clause
      having passed every clause before it. */
  lemma SelectionFalse(cs: seq<Clause>, value: Clause -> bool)
    ensures Selection(cs, value) == Ok(false) <==>
      exists k :: 0 <= k < |cs| && IsBoolean(cs[k]) && !value(cs[k]) && PassesBefore(cs, value, k)
  {
    if Selection(cs, value) == Ok(false) {
      var k := StopPosition(cs, value);
    }
    if exists k :: 0 <= k < |cs| && IsBoolean(cs[k]) && !value(cs[k]) && PassesBefore(cs, value, k) {
      var k :| 0 <= k < |cs| && IsBoolean(cs[k]) && !value(cs[k]) && PassesBefore(cs, value, k);
      StopsAt(cs, value, k);
    }
  }

  /** A selection fails exactly when it reaches a non-boolean clause having
      passed every clause before it; the failure is an internal error. */
  lemma SelectionError(cs: seq<Clause>, value: Clause -> bool)
    ensures Selection(cs, value).Err? <==>
      exists k :: 0 <= k < |cs| && !IsBoolean(cs[k]) && PassesBefore(cs, value, k)
    ensures Selection(cs, value).Err? ==> Selection(cs, value).error.InternalErr?
  {
    if Selection(cs, value).Err? {
      var k := StopPosition(cs, value);
    }
    if exists k :: 0 <= k < |cs| && !IsBoolean(cs[k]) && PassesBefore(cs, value, k) {
      var k :| 0 <= k < |cs| && !IsBoolean(cs[k]) && PassesBefore(cs, value, k);
      StopsAt(cs, value, k);
    }
  }

  /** Where a selection that is not true stopped: every clause before
      passed, and the clause there is the false or non-boolean one. */
  lemma {:induction false} StopPosition(cs: seq<Clause>, value: Clause -> bool) returns (k: nat)
    requires Selection(cs, value) != Ok(true)
    ensures k < |cs| && PassesBefore(cs, value, k)
    ensures Selection(cs, value) == if IsBoolean(cs[k]) then Ok(false) else Err(InternalErr("A selection expression must contain only boolean clauses."))
    ensures IsBoolean(cs[k]) ==> !value(cs[k])
    decreases |cs|
  {
    if !IsBoolean(cs[0]) || !value(cs[0]) {
      k := 0;
    } else {
      var k' := StopPosition(cs[1..], value);
      k := k' + 1;
      PassesShift(cs, value, k');
      assert cs[k] == cs[1..][k'];
    }
  }

  /** A selection that passes every clause before `k` ends as clause `k`
      decides, when that clause is false or not boolean. */
  lemma {:induction false} StopsAt(cs: seq<Clause>, value: Clause -> bool, k: nat)
    requires k < |cs| && PassesBefore(cs, value, k)
    requires !IsBoolean(cs[k]) || !value(cs[k])
    ensures Selection(cs, value) == if IsBoolean(cs[k]) then Ok(false) else Err(InternalErr("A selection expression must contain only boolean clauses."))
    decreases k
  {
    if k > 0 {
      PassesShift(cs, value, k - 1);
      assert cs[1..][k - 1] == cs[k];
      StopsAt(cs[1..], value, k - 1);
    }
  }

  /** Nothing after the first false clause is inspected: whatever follows
      it, a non-boolean clause included, the selection is false. */
  lemma {:induction false} SelectionStopsAtFalse(cs: seq<Clause>, rest: seq<Clause>, value: Clause -> bool)
    requires cs != [] && IsBoolean(cs[|cs| - 1]) && !value(cs[|cs| - 1])
    requires PassesBefore(cs, value, |cs| - 1)
    ensures Selection(cs + rest, value) == Ok(false)
    decreases |cs|
  {
    assert (cs + rest)[0] == cs[0];
    if |cs| > 1 {
      assert (cs + rest)[1..] == cs[1..] + rest;
      PassesShift(cs, value, |cs| - 2);
      SelectionStopsAtFalse(cs[1..], rest, value);
    }
  }

  /** Passing the clauses after the first one, shifted by one. */
  lemma PassesShift(cs: seq<Clause>, value: Clause -> bool, n: nat)
    requires cs != [] && n < |cs|
    ensures PassesBefore(cs, value, n + 1) <==>
      IsBoolean(cs[0]) && value(cs[0]) && PassesBefore(cs[1..], value, n)
  {
    if IsBoolean(cs[0]) && value(cs[0]) && PassesBefore(cs[1..], value, n) {
      forall i | 0 < i < n + 1
        ensures IsBoolean(cs[i]) && value(cs[i])
      {
        assert cs[i] == cs[1..][i - 1];
      }
    }
    if PassesBefore(cs, value, n + 1) {
      forall i | 0 <= i < n
        ensures IsBoolean(cs[1..][i]) && value(cs[1..][i])
      {
        assert cs[1..][i] == cs[i + 1];
      }
    }
  }

  class ConstraintEvaluator {
    var expr: seq<Clause>
    var constants: seq<Var>
    var functions: seq<FunctionEntry>

    /** A new evaluator: no clauses or constants yet, and the registry
        holding the functions the library registers at start-up,
        `registered`. */
    constructor (registered: seq<FunctionEntry>)
      ensures expr == [] && constants == [] && functions == registered
    {
      expr, constants, functions := [], [], registered;
    }

    /** `append_clause(op, arg1, arg2)`: a relational clause goes at the
        end of the list. */
    method AppendRelational(op: int, lhs: RvalueId, rhs: seq<RvalueId>)
      modifies this
      ensures expr == old(expr) + [Relational(op, lhs, rhs)]
      ensures constants == old(constants) && functions == old(functions)
    {
      expr := expr + [Relational(op, lhs, rhs)];
    }

    /** `append_clause(bool_func, args)`. */
    method AppendBoolCall(f: FuncId, args: seq<RvalueId>)
      modifies this
      ensures expr == old(expr) + [BoolCall(f, args)]
      ensures constants == old(constants) && functions == old(functions)
    {
      expr := expr + [BoolCall(f, args)];
    }

    /** `append_clause(btp_func, args)`. */
    method AppendBtpCall(f: FuncId, args: seq<RvalueId>)
      modifies this
      ensures expr == old(expr) + [BtpCall(f, args)]
      ensures constants == old(constants) && functions == old(functions)
    {
      expr := expr + [BtpCall(f, args)];
    }

    /** `append_constant(btp)`: the constant is kept for disposal only. */
    method AppendConstant(v: Var)
      modifies this
      ensures constants == old(constants) + [v]
      ensures expr == old(expr) && functions == old(functions)
    {
      constants := constants + [v];
    }

    /** `add_function(name, f)` for a function of kind `k`: one entry at
        the end of the registry; a search for `name` finds `f` unless an
        earlier entry already provides that name and kind. */
    method AddFunction(name: string, k: FuncKind, f: Option<FuncId>)
      modifies this
      ensures functions == old(functions) + [Entry(name, k, f)]
      ensures Registered(functions, name, k) ==
        if Registered(old(functions), name, k).Some? then Registered(old(functions), name, k) else f
      ensures expr == old(expr) && constants == old(constants)
    {
      RegisteredAppend(functions, Entry(name, k, f), name, k);
      functions := functions + [Entry(name, k, f)];
    }

    /** `find_function(name, &f)` for kind `k`, `f0` being what `*f` held
        before the call.  Each entry with the name overwrites `*f` with its
        pointer of kind `k`, and the search ends at the first pointer that
        is not null. */
    method FindFunction(name: string, k: FuncKind, f0: Option<FuncId>) returns (found: bool, f: Option<FuncId>)
      ensures found <==> Registered(functions, name, k).Some?
      ensures found ==> f == Registered(functions, name, k)
      ensures !found ==> f == if NamedBefore(functions, name, |functions|) then None else f0
    {
      f := f0;
      if functions == [] {
        return false, f;
      }
      var i := 0;
      while i < |functions|
        invariant i <= |functions|
        invariant Registered(functions, name, k) == Registered(functions[i..], name, k)
        invariant f == if NamedBefore(functions, name, i) then None else f0
      {
        assert functions[i..][1..] == functions[i + 1..];
        if name == functions[i].name {
          f := Slot(functions[i], k);
          if f.Some? {
            return true, f;
          }
        }
        assert NamedBefore(functions, name, i + 1) <==> NamedBefore(functions, name, i) || functions[i].name == name;
        i := i + 1;
      }
      return false, f;
    }

    /** `clause_value(iter)`: the value of the clause at position `i`; an
        error when there are no clauses. */
    function ClauseValue(i: nat, value: Clause -> bool): (r: Result<bool>)
      requires expr != [] ==> i < |expr|
      reads this
      ensures r.Err? <==> expr == []
      ensures r.Err? ==> r.error.InternalErr?
      ensures r.Ok? ==> r.value == value(expr[i])
    {
      if expr == [] then Err(InternalErr("There are no CE clauses for *this* DDS object."))
      else Ok(value(expr[i]))
    }

    /** `functional_expression()`: the expression yields a variable; only
        the first clause is consulted. */
    function FunctionalExpression(): (r: bool)
      reads this
      ensures r <==> expr != [] && expr[0].BtpCall?
    {
      if expr == [] then false else IsValue(expr[0])
    }

    /** `eval_function(dds, dataset)`: the one clause's variable, or
        nothing when its evaluation, `call`, reports failure; an error
        unless the expression has exactly one clause. */
    method EvalFunction(call: Clause -> (bool, Option<Var>)) returns (r: Result<Option<Var>>)
      ensures r.Err? <==> |expr| != 1
      ensures r.Err? ==> r.error.InternalErr?
      ensures r.Ok? && !call(expr[0]).0 ==> r.value.None?
      ensures r.Ok? && call(expr[0]).0 ==> r.value == call(expr[0]).1
    {
      if |expr| != 1 {
        return Err(InternalErr("The length of the list of CE clauses is not 1."));
      }
      var (ok, result) := call(expr[0]);
      if ok {
        return Ok(result);
      }
      return Ok(None);
    }

    /** `boolean_expression()`: every clause yields a truth value; false
        for an empty expression. */
    method BooleanExpression() returns (r: bool)
      ensures r <==> expr != [] && forall i :: 0 <= i < |expr| ==> IsBoolean(expr[i])
    {
      if expr == [] {
        return false;
      }
      r := true;
      var i := 0;
      while i < |expr|
        invariant i <= |expr|
        invariant r <==> forall j :: 0 <= j < i ==> IsBoolean(expr[j])
      {
        r := r && IsBoolean(expr[i]);
        i := i + 1;
      }
    }

    /** `eval_selection(dds, dataset)`: the AND of the clause values in
        list order, `value` giving each clause's value; true for an empty
        expression. */
    method EvalSelection(value: Clause -> bool) returns (r: Result<bool>)
      ensures r == Selection(expr, value)
    {
      if expr == [] {
        return Ok(true);
      }
      var result := true;
      var i := 0;
      while i < |expr| && result
        invariant i <= |expr|
        invariant Selection(expr, value) == if result then Selection(expr[i..], value) else Ok(false)
      {
        assert expr[i..][1..] == expr[i + 1..];
        if !IsBoolean(expr[i]) {
          return Err(InternalErr("A selection expression must contain only boolean clauses."));
        }
        result := result && value(expr[i]);
        i := i + 1;
      }
      return Ok(result);
    }
  }
}
