/** The Structure constructor type: an ordered list of member variables,
    reached by name (with `.` paths into nested constructors) or by
    position with a cursor. */
module Structures {
  import opened Wrappers
  import opened Variables

  class Structure {
    var name: string
    var vars: seq<Var>
    var read: bool
    var send: bool

    /** An empty Structure. */
    constructor (n: string)
      ensures name == n && vars == [] && !read && !send
    {
      name, vars, read, send := n, [], false, false;
    }

    /** `add_var`: a copy of `v` becomes the last member; the earlier
        members are unchanged.  The copy is the stored value, so what the
        caller does with its own object afterwards does not reach it. */
    method AddVar(v: Var)
      modifies this
      ensures vars == old(vars) + [v]
      ensures ElementCount() == old(ElementCount()) + 1
      ensures Width() == old(Width()) + Variables.Width(v)
      ensures name == old(name) && read == old(read) && send == old(send)
    {
      WidthSumAppend(vars, v);
      vars := vars + [v];
    }

    /** `set_send_p`: the flag of the Structure and of every member, at
        every depth of nesting. */
    method SetSendP(state: bool)
      modifies this
      ensures vars == AllWithSend(old(vars), state) && send == state
      ensures AllSend(AsVar(), state)
      ensures Names(vars) == Names(old(vars))
      ensures name == old(name) && read == old(read)
    {
      var vs := vars;
      var k := 0;
      while k < |vs|
        invariant k <= |vs| == |vars|
        invariant forall j :: 0 <= j < k ==> vs[j] == WithSend(vars[j], state)
        invariant forall j :: k <= j < |vs| ==> vs[j] == vars[j]
      {
        vs := vs[k := WithSend(vs[k], state)];
        k := k + 1;
      }
      AllWithSendMatches(vars, vs, state);
      vars, send := vs, state;
      WithSendReachesAllIn(old(vars), state);
    }

    /** `set_read_p`, in the same way. */
    method SetReadP(state: bool)
      modifies this
      ensures vars == AllWithRead(old(vars), state) && read == state
      ensures AllRead(AsVar(), state)
      ensures Names(vars) == Names(old(vars))
      ensures name == old(name) && send == old(send)
    {
      var vs := vars;
      var k := 0;
      while k < |vs|
        invariant k <= |vs| == |vars|
        invariant forall j :: 0 <= j < k ==> vs[j] == WithRead(vars[j], state)
        invariant forall j :: k <= j < |vs| ==> vs[j] == vars[j]
      {
        vs := vs[k := WithRead(vs[k], state)];
        k := k + 1;
      }
      AllWithReadMatches(vars, vs, state);
      vars, read := vs, state;
      WithReadReachesAllIn(old(vars), state);
    }

    /** `width()`: the sum of the members' widths. */
    function Width(): (w: int)
      reads this
      ensures w == WidthSum(vars)
      ensures vars == [] ==> w == 0
    {
      WidthSum(vars)
    }

    /** `val2buf`: stores nothing and returns the Structure's size. */
    method Val2Buf() returns (n: int)
      ensures n == WidthSum(vars)
    {
      n := Width();
    }

    /** `buf2val`: writes nothing and returns the Structure's size. */
    method Buf2Val() returns (n: int)
      ensures n == WidthSum(vars)
    {
      n := Width();
    }

    /** The number of direct members; members of nested constructors are
        not counted. */
    function ElementCount(): (n: nat)
      reads this
      ensures n == |vars|
    {
      |vars|
    }

    /** `var(name)`. */
    function Var(n: string): (r: Option<Var>)
      reads this
      ensures '.' !in n ==> (r.Some? <==> exists i :: 0 <= i < |vars| && vars[i].name == n)
      ensures '.' !in n && r.Some? ==> r.value in vars && r.value.name == n
    {
      Lookup(vars, n)
    }

    /** `first_var()`. */
    function FirstVar(): (p: Pix)
      reads this
      ensures p.Some? <==> vars != []
    {
      First(vars)
    }

    /** `next_var(p)`: the cursor moves to the next member, or becomes null
        after the last one. */
    method NextVar(p: Pix) returns (q: Pix)
      ensures q == Next(vars, p)
    {
      q := Next(vars, p);
    }

    /** `var(Pix)`. */
    function VarAt(p: Pix): (r: Option<Var>)
      reads this
      ensures r.Some? <==> p.Some? && p.value < |vars|
      ensures r.Some? ==> r.value == vars[p.value]
    {
      At(vars, p)
    }

    /** The Structure as a variable value, for nesting it in another
        constructor. */
    function AsVar(): (v: Var)
      reads this
      ensures v.StructureVar? && v.name == name && v.children == vars
      ensures Variables.Width(v) == Width()
    {
      StructureVar(name, vars, read, send)
    }
  }
}
