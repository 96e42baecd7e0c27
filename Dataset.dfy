/** The dataset descriptor (DDS): a named, ordered table of the dataset's
    top-level variables. */
module Dataset {
  import opened Wrappers
  import opened Variables

  /** No two variables share a name. */
  predicate UniqueNames(vs: seq<Var>)
  {
    forall i, j :: 0 <= i < j < |vs| ==> vs[i].name != vs[j].name
  }

  /** libg++ `SLList::del_after(pp)`: removes the element after position
      `pp`, or the first element when `pp` is null. */
  function DelAfter(vs: seq<Var>, pp: Pix): (r: seq<Var>)
    requires pp.None? ==> |vs| > 0
    requires pp.Some? ==> pp.value + 1 < |vs|
    ensures |r| == |vs| - 1
  {
    match pp
    case None => vs[1..]
    case Some(i) => vs[..i + 1] + vs[i + 2..]
  }

  /** The variables with the first one named `n` removed, if there is
      one. */
  function RemoveFirst(vs: seq<Var>, n: string): (r: seq<Var>)
  {
    match IndexOf(vs, n)
    case None => vs
    case Some(i) => vs[..i] + vs[i + 1..]
  }

  /** `del_var` removes exactly one variable when one has the name, and the
      others keep their order. */
  lemma RemoveFirstShape(vs: seq<Var>, n: string)
    ensures IndexOf(vs, n).None? ==> RemoveFirst(vs, n) == vs
    ensures IndexOf(vs, n).Some? ==>
      var i := IndexOf(vs, n).value;
      |RemoveFirst(vs, n)| == |vs| - 1 &&
      (forall j :: 0 <= j < i ==> RemoveFirst(vs, n)[j] == vs[j]) &&
      (forall j :: i <= j < |vs| - 1 ==> RemoveFirst(vs, n)[j] == vs[j + 1]) &&
      multiset(RemoveFirst(vs, n)) + multiset{vs[i]} == multiset(vs)
  {
    if IndexOf(vs, n).Some? {
      var i := IndexOf(vs, n).value;
      assert vs == vs[..i] + [vs[i]] + vs[i + 1..];
    }
  }

  /** Adding a variable whose name is new and deleting it again restores
      the table. */
  lemma DelVarUndoesAddVar(vs: seq<Var>, v: Var)
    requires forall j :: 0 <= j < |vs| ==> vs[j].name != v.name
    ensures RemoveFirst(vs + [v], v.name) == vs
  {
    var r := IndexOf(vs + [v], v.name);
    assert (vs + [v])[|vs|] == v;
    assert r == Some(|vs|);
    assert (vs + [v])[..|vs|] == vs;
  }

  /** In a table with unique names, a deleted name is no longer found and
      the table stays unique. */
  lemma DelVarRemovesName(vs: seq<Var>, n: string)
    requires UniqueNames(vs)
    ensures Named(RemoveFirst(vs, n), n) == None
    ensures UniqueNames(RemoveFirst(vs, n))
  {
    RemoveFirstShape(vs, n);
    var r := RemoveFirst(vs, n);
    if IndexOf(vs, n).Some? {
      var i := IndexOf(vs, n).value;
      forall j | 0 <= j < |r|
        ensures r[j].name != n
      {
        if j >= i {
          assert r[j] == vs[j + 1];
        }
      }
      forall a, b | 0 <= a < b < |r|
        ensures r[a].name != r[b].name
      {
        var a' := if a < i then a else a + 1;
        var b' := if b < i then b else b + 1;
        assert r[a] == vs[a'] && r[b] == vs[b'];
      }
    }
  }

  class DDS {
    var name: string
    var vars: seq<Var>

    /** A dataset named `n` with no variables. */
    constructor (n: string)
      ensures name == n && vars == []
    {
      name, vars := n, [];
    }

    /** `get_dataset_name()`. */
    function GetDatasetName(): (r: string)
      reads this
      ensures r == name
    {
      name
    }

    /** `set_dataset_name(n)`: the name `get_dataset_name` then returns. */
    method SetDatasetName(n: string)
      modifies this
      ensures GetDatasetName() == n && vars == old(vars)
    {
      name := n;
    }

    /** `add_var`: the variable goes at the end of the table. */
    method AddVar(v: Var)
      modifies this
      ensures vars == old(vars) + [v] && name == old(name)
      ensures Named(old(vars), v.name).None? ==> Named(vars, v.name) == Some(v)
      ensures forall n :: Named(old(vars), n).Some? ==> Named(vars, n) == Named(old(vars), n)
    {
      forall n | Named(vars, n).Some?
        ensures Named(vars + [v], n) == Named(vars, n)
      {
        NamedAppend(vars, v, n);
      }
      NamedAppend(vars, v, v.name);
      vars := vars + [v];
    }

    /** `var(n)`: scans the table from the front and returns the first
        variable named `n`, or null. */
    method FindVar(n: string) returns (r: Option<Var>)
      ensures r == Named(vars, n)
      ensures r.Some? ==> r.value.name == n && r.value in vars
      ensures r.None? ==> forall j :: 0 <= j < |vars| ==> vars[j].name != n
    {
      var p := First(vars);
      while p.Some?
        invariant p.Some? ==> p.value < |vars|
        invariant forall j :: 0 <= j < (if p.Some? then p.value else |vars|) ==> vars[j].name != n
        decreases if p.Some? then |vars| - p.value else 0
      {
        if vars[p.value].name == n {
          return Some(vars[p.value]);
        }
        p := Next(vars, p);
      }
      return None;
    }

    /** `del_var(n)`: scans with the cursor `p` and the one before it,
        `pp`, and unlinks the first variable named `n`; with no such
        variable the table is unchanged. */
    method DelVar(n: string)
      modifies this
      ensures vars == RemoveFirst(old(vars), n) && name == old(name)
    {
      var pp: Pix := None;
      var p := First(vars);
      while p.Some?
        invariant p.Some? ==> p.value < |vars|
        invariant p.Some? ==> pp == if p.value > 0 then Some(p.value - 1) else None
        invariant forall j :: 0 <= j < (if p.Some? then p.value else |vars|) ==> vars[j].name != n
        invariant vars == old(vars) && name == old(name)
        decreases if p.Some? then |vars| - p.value else 0
      {
        if vars[p.value].name == n {
          ghost var i := p.value;
          assert IndexOf(vars, n) == Some(i);
          vars := DelAfter(vars, pp);
          assert i == 0 ==> vars == old(vars)[..i] + old(vars)[i + 1..];
          return;
        }
        pp := p;
        p := Next(vars, p);
      }
    }

    /** `first_var()`. */
    function FirstVar(): (p: Pix)
      reads this
      ensures p.Some? <==> vars != []
      ensures p.Some? ==> VarAt(p) == Some(vars[0])
    {
      First(vars)
    }

    /** `next_var(p)`: on an empty table the cursor is left as it is. */
    method NextVar(p: Pix) returns (q: Pix)
      ensures vars == [] ==> q == p
      ensures vars != [] ==> q == Next(vars, p)
    {
      q := p;
      if vars != [] {
        q := Next(vars, p);
      }
    }

    /** `var(Pix)`: the variable at a cursor; nothing at a null cursor or
        in an empty table. */
    function VarAt(p: Pix): (r: Option<Var>)
      reads this
      ensures r.Some? <==> p.Some? && p.value < |vars|
      ensures r.Some? ==> r.value == vars[p.value]
    {
      if vars != [] && p.Some? then At(vars, p) else None
    }

    /** `check_semantics(all)`: the dataset needs a name and unique
        variable names; with `all`, every variable must also pass its own
        check, `ok`, taken in table order. */
    method CheckSemantics(all: bool, ok: Var -> bool) returns (r: bool)
      ensures r == (name != "" && UniqueNames(vars) && (all ==> forall j :: 0 <= j < |vars| ==> ok(vars[j])))
    {
      if name == "" {
        return false;
      }
      if !UniqueNames(vars) {
        return false;
      }
      if all {
        var p := First(vars);
        while p.Some?
          invariant p.Some? ==> p.value < |vars|
          invariant forall j :: 0 <= j < (if p.Some? then p.value else |vars|) ==> ok(vars[j])
          decreases if p.Some? then |vars| - p.value else 0
        {
          if !ok(vars[p.value]) {
            return false;
          }
          p := Next(vars, p);
        }
      }
      return true;
    }
  }
}
