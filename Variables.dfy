/** The variable type model: scalar variables, arrays and the two
    constructor types, held as values.  A constructor stores its own copy
    of every variable added to it (`add_var` duplicates its argument, which
    is why tests/structT.cc:51-57 may delete the original), so a child list
    is a sequence of values.  The dataset keeps values too, although its
    `add_var` stores the caller's pointer. */
module Variables {
  import opened Wrappers

  /** The scalar kinds of the DAP. */
  datatype ScalarKind =
    | ByteKind | Int16Kind | UInt16Kind | Int32Kind | UInt32Kind | Int64Kind | UInt64Kind
    | Float32Kind | Float64Kind | StrKind | UrlKind

  /** The run-time type tag of any variable. */
  datatype Kind = ScalarOf(scalar: ScalarKind) | ArrayKind | StructureKind | SequenceKind

  /** `sizeof(std::string)` with the 64-bit GNU C++ library; strings and URLs
      (a URL is a string) report it as their width. */
  const StrWidth: nat := 32

  /** `width()` of a scalar: the size of its C type. */
  function ScalarWidth(k: ScalarKind): (w: nat)
    ensures w > 0
    ensures k.Int16Kind? || k.UInt16Kind? ==> w == 2
    ensures k.UInt64Kind? || k.Int64Kind? || k.Float64Kind? ==> w == 8
  {
    match k
    case ByteKind => 1
    case Int16Kind => 2
    case UInt16Kind => 2
    case Int32Kind => 4
    case UInt32Kind => 4
    case Int64Kind => 8
    case UInt64Kind => 8
    case Float32Kind => 4
    case Float64Kind => 8
    case StrKind => StrWidth
    case UrlKind => StrWidth
  }

  /** One dimension of an array: its full size and the part of it the
      current constraint selects.  `start`, `stop` and `stride` are C++
      `int`s. */
  datatype Dim = Dim(name: string, size: int, start: int, stop: int, stride: int)

  /** A variable.  `read` and `send` are BaseType's `read_p` and `send_p`. */
  datatype Var =
    | Scalar(name: string, kind: ScalarKind, read: bool, send: bool)
    | ArrayVar(name: string, template: Var, dims: seq<Dim>, read: bool, send: bool)
    | StructureVar(name: string, children: seq<Var>, read: bool, send: bool)
    | SequenceVar(name: string, children: seq<Var>, level: int, read: bool, send: bool)

  function KindOf(v: Var): Kind
  {
    match v
    case Scalar(_, k, _, _) => ScalarOf(k)
    case ArrayVar(_, _, _, _, _) => ArrayKind
    case StructureVar(_, _, _, _) => StructureKind
    case SequenceVar(_, _, _, _, _) => SequenceKind
  }

  predicate IsConstructor(v: Var)
  {
    v.StructureVar? || v.SequenceVar?
  }

  // ---------------------------------------------------------------------
  // Array lengths
  // ---------------------------------------------------------------------

  /** The number of elements a dimension contributes under its constraint,
      `(stop - start) / stride + 1` in C++ integer division. */
  function DimLength(d: Dim): int
  {
    if d.stride <= 0 then 0 else CDiv(d.stop - d.start, d.stride) + 1
  }

  /** C++ `/` on `int`: the quotient truncated toward zero. */
  function CDiv(a: int, b: int): (q: int)
    requires b > 0
    ensures a >= 0 ==> q == a / b
    ensures a < 0 ==> q == -((-a) / b)
  {
    if a >= 0 then a / b else -((-a) / b)
  }

  /** The product of the dimensions' constrained lengths. */
  function Product(dims: seq<Dim>): int
    decreases |dims|
  {
    if dims == [] then 1 else Product(dims[..|dims| - 1]) * DimLength(dims[|dims| - 1])
  }

  /** `length()` of an array: -1 before any dimension is appended. */
  function ArrayLength(dims: seq<Dim>): int
  {
    if dims == [] then -1 else Product(dims)
  }

  // ---------------------------------------------------------------------
  // Width
  // ---------------------------------------------------------------------

  /** `width()`: a scalar's size, an array's length times its element's
      width, the sum of the children's widths for a constructor. */
  function Width(v: Var): int
    decreases v, 1
  {
    match v
    case Scalar(_, k, _, _) => ScalarWidth(k)
    case ArrayVar(_, t, dims, _, _) => ArrayLength(dims) * Width(t)
    case StructureVar(_, cs, _, _) => WidthSum(cs)
    case SequenceVar(_, cs, _, _, _) => WidthSum(cs)
  }

  function WidthSum(vs: seq<Var>): int
    decreases vs, 0
  {
    if vs == [] then 0 else WidthSum(vs[..|vs| - 1]) + Width(vs[|vs| - 1])
  }

  lemma {:induction false} WidthSumAppend(vs: seq<Var>, v: Var)
    ensures WidthSum(vs + [v]) == WidthSum(vs) + Width(v)
  {
    assert (vs + [v])[..|vs|] == vs;
  }

  // ---------------------------------------------------------------------
  // Flags
  // ---------------------------------------------------------------------

  /** The variable itself and, when it is a constructor, every member at
      every depth, with `send_p` set to `state`. */
  function WithSend(v: Var, state: bool): (r: Var)
    ensures r.name == v.name && KindOf(r) == KindOf(v) && r.send == state
    decreases v, 1
  {
    match v
    case Scalar(n, k, rd, _) => Scalar(n, k, rd, state)
    case ArrayVar(n, t, dims, rd, _) => ArrayVar(n, t, dims, rd, state)
    case StructureVar(n, cs, rd, _) => StructureVar(n, AllWithSend(cs, state), rd, state)
    case SequenceVar(n, cs, l, rd, _) => SequenceVar(n, AllWithSend(cs, state), l, rd, state)
  }

  function AllWithSend(vs: seq<Var>, state: bool): (r: seq<Var>)
    ensures |r| == |vs|
    ensures forall i :: 0 <= i < |vs| ==> r[i] == WithSend(vs[i], state)
    decreases vs, 0
  {
    if vs == [] then [] else AllWithSend(vs[..|vs| - 1], state) + [WithSend(vs[|vs| - 1], state)]
  }

  /** The same for `read_p`. */
  function WithRead(v: Var, state: bool): (r: Var)
    ensures r.name == v.name && KindOf(r) == KindOf(v) && r.read == state
    decreases v, 1
  {
    match v
    case Scalar(n, k, _, s) => Scalar(n, k, state, s)
    case ArrayVar(n, t, dims, _, s) => ArrayVar(n, t, dims, state, s)
    case StructureVar(n, cs, _, s) => StructureVar(n, AllWithRead(cs, state), state, s)
    case SequenceVar(n, cs, l, _, s) => SequenceVar(n, AllWithRead(cs, state), l, state, s)
  }

  function AllWithRead(vs: seq<Var>, state: bool): (r: seq<Var>)
    ensures |r| == |vs|
    ensures forall i :: 0 <= i < |vs| ==> r[i] == WithRead(vs[i], state)
    decreases vs, 0
  {
    if vs == [] then [] else AllWithRead(vs[..|vs| - 1], state) + [WithRead(vs[|vs| - 1], state)]
  }

  lemma AllWithSendMatches(vs: seq<Var>, ws: seq<Var>, state: bool)
    requires |ws| == |vs| && forall j :: 0 <= j < |vs| ==> ws[j] == WithSend(vs[j], state)
    ensures ws == AllWithSend(vs, state)
  {
  }

  lemma AllWithReadMatches(vs: seq<Var>, ws: seq<Var>, state: bool)
    requires |ws| == |vs| && forall j :: 0 <= j < |vs| ==> ws[j] == WithRead(vs[j], state)
    ensures ws == AllWithRead(vs, state)
  {
  }

  /** Every variable of the tree rooted at `v` has `send_p == state`. */
  predicate AllSend(v: Var, state: bool)
    decreases v, 1
  {
    v.send == state &&
    (IsConstructor(v) ==> AllSendIn(v.children, state))
  }

  predicate AllSendIn(vs: seq<Var>, state: bool)
    decreases vs, 0
  {
    forall i :: 0 <= i < |vs| ==> AllSend(vs[i], state)
  }

  predicate AllRead(v: Var, state: bool)
    decreases v, 1
  {
    v.read == state &&
    (IsConstructor(v) ==> AllReadIn(v.children, state))
  }

  predicate AllReadIn(vs: seq<Var>, state: bool)
    decreases vs, 0
  {
    forall i :: 0 <= i < |vs| ==> AllRead(vs[i], state)
  }

  /** Setting `send_p` reaches every member at every depth. */
  lemma {:induction false} WithSendReachesAll(v: Var, state: bool)
    ensures AllSend(WithSend(v, state), state)
    decreases v, 1
  {
    if IsConstructor(v) {
      WithSendReachesAllIn(v.children, state);
    }
  }

  lemma {:induction false} WithSendReachesAllIn(vs: seq<Var>, state: bool)
    ensures AllSendIn(AllWithSend(vs, state), state)
    decreases vs, 0
  {
    forall i | 0 <= i < |vs|
      ensures AllSend(AllWithSend(vs, state)[i], state)
    {
      WithSendReachesAll(vs[i], state);
    }
  }

  lemma {:induction false} WithReadReachesAll(v: Var, state: bool)
    ensures AllRead(WithRead(v, state), state)
    decreases v, 1
  {
    if IsConstructor(v) {
      WithReadReachesAllIn(v.children, state);
    }
  }

  lemma {:induction false} WithReadReachesAllIn(vs: seq<Var>, state: bool)
    ensures AllReadIn(AllWithRead(vs, state), state)
    decreases vs, 0
  {
    forall i | 0 <= i < |vs|
      ensures AllRead(AllWithRead(vs, state)[i], state)
    {
      WithReadReachesAll(vs[i], state);
    }
  }

  // ---------------------------------------------------------------------
  // Child lists: lookup and cursors
  // ---------------------------------------------------------------------

  function Names(vs: seq<Var>): (r: seq<string>)
    ensures |r| == |vs| && forall i :: 0 <= i < |vs| ==> r[i] == vs[i].name
  {
    if vs == [] then [] else Names(vs[..|vs| - 1]) + [vs[|vs| - 1].name]
  }

  /** The position of the first variable named `n`. */
  function IndexOf(vs: seq<Var>, n: string): (r: Option<nat>)
    ensures r.Some? ==> r.value < |vs| && vs[r.value].name == n &&
                        forall j :: 0 <= j < r.value ==> vs[j].name != n
    ensures r.None? ==> forall j :: 0 <= j < |vs| ==> vs[j].name != n
  {
    if vs == [] then None
    else if vs[0].name == n then Some(0)
    else match IndexOf(vs[1..], n)
      case None => None
      case Some(i) => Some(i + 1)
  }

  /** The first variable named `n`. */
  function Named(vs: seq<Var>, n: string): Option<Var>
  {
    match IndexOf(vs, n)
    case None => None
    case Some(i) => Some(vs[i])
  }

  /** Appending never changes which variable a name finds first; a name
      not found before finds the appended variable when it has that name. */
  lemma NamedAppend(vs: seq<Var>, v: Var, n: string)
    ensures Named(vs + [v], n) ==
      if Named(vs, n).Some? then Named(vs, n) else if v.name == n then Some(v) else None
  {
    var ws := vs + [v];
    assert forall j :: 0 <= j < |vs| ==> ws[j] == vs[j];
    assert ws[|vs|] == v;
    match IndexOf(vs, n)
    case Some(i) =>
      assert IndexOf(ws, n) == Some(i);
    case None =>
      if v.name == n {
        assert IndexOf(ws, n) == Some(|vs|);
      }
  }

  /** The position of the first `.` in a name. */
  function DotIndex(n: string): (r: Option<nat>)
    ensures r.Some? ==> r.value < |n| && n[r.value] == '.' &&
                        forall j :: 0 <= j < r.value ==> n[j] != '.'
    ensures r.None? ==> '.' !in n
  {
    if n == [] then None
    else if n[0] == '.' then Some(0)
    else match DotIndex(n[1..])
      case None => None
      case Some(i) => Some(i + 1)
  }

  /** `var(name)` of a constructor: the first direct child with that name;
      failing that, a dotted name `a.b` names member `b` of the constructor
      child `a`. */
  function Lookup(vs: seq<Var>, n: string): Option<Var>
    decreases |n|
  {
    match Named(vs, n)
    case Some(v) => Some(v)
    case None =>
      match DotIndex(n)
      case None => None
      case Some(d) =>
        match Named(vs, n[..d])
        case Some(agg) =>
          if IsConstructor(agg) then Lookup(agg.children, n[d + 1..]) else None
        case None => None
  }

  /** A direct child is found by its name, and it is the first one. */
  lemma LookupDirect(vs: seq<Var>, i: nat)
    requires i < |vs| && forall j :: 0 <= j < i ==> vs[j].name != vs[i].name
    ensures Lookup(vs, vs[i].name) == Some(vs[i])
  {
    var r := IndexOf(vs, vs[i].name);
    assert r.Some?;
  }

  /** `outer.inner` reaches the member `inner` of the constructor child
      `outer`, when no child has the dotted name itself. */
  lemma LookupDotted(vs: seq<Var>, outer: string, inner: string)
    requires '.' !in outer
    requires Named(vs, outer + "." + inner).None?
    ensures Lookup(vs, outer + "." + inner) ==
      match Named(vs, outer)
      case Some(agg) => if IsConstructor(agg) then Lookup(agg.children, inner) else None
      case None => None
  {
    var n := outer + "." + inner;
    var d := DotIndex(n);
    assert n[|outer|] == '.';
    assert forall j :: 0 <= j < |outer| ==> n[j] == outer[j];
    assert d.Some? && d.value == |outer|;
    assert n[..|outer|] == outer;
    assert n[|outer| + 1..] == inner;
  }

  /** A name without a dot that no child has is not found. */
  lemma LookupMissing(vs: seq<Var>, n: string)
    requires '.' !in n && forall j :: 0 <= j < |vs| ==> vs[j].name != n
    ensures Lookup(vs, n) == None
  {
  }

  /** A cursor into an ordered list: the libg++ `Pix`, where `None` is
      the null `Pix`.  Child lists and dimension lists share it. */
  type Pix = Option<nat>

  /** `first_var()`, `first_dim()`. */
  function First<T>(xs: seq<T>): (p: Pix)
    ensures p.Some? <==> |xs| > 0
    ensures p.Some? ==> p.value == 0
  {
    if |xs| > 0 then Some(0) else None
  }

  /** `SLList::next`: the following position, or null after the last. */
  function Next<T>(xs: seq<T>, p: Pix): (q: Pix)
    ensures p.Some? && p.value + 1 < |xs| ==> q == Some(p.value + 1)
    ensures p.None? || p.value + 1 >= |xs| ==> q.None?
  {
    match p
    case None => None
    case Some(i) => if i + 1 < |xs| then Some(i + 1) else None
  }

  /** `var(Pix)`: the element at a cursor. */
  function At<T>(xs: seq<T>, p: Pix): (r: Option<T>)
    ensures r.Some? <==> p.Some? && p.value < |xs|
    ensures r.Some? ==> r.value == xs[p.value]
  {
    match p
    case None => None
    case Some(i) => if i < |xs| then Some(xs[i]) else None
  }

  /** The elements a cursor walk visits from `p` on. */
  function Walk<T>(xs: seq<T>, p: Pix): seq<T>
    decreases if p.Some? && p.value < |xs| then |xs| - p.value else 0
  {
    match At(xs, p)
    case None => []
    case Some(v) => [v] + Walk(xs, Next(xs, p))
  }

  /** Walking from `first_var()` with `next_var()` visits every element
      once, in list order, and then reaches the null cursor. */
  lemma WalkVisitsAll<T>(xs: seq<T>)
    ensures Walk(xs, First(xs)) == xs
  {
    if |xs| > 0 {
      WalkFrom(xs, 0);
      assert xs[0..] == xs;
    }
  }

  lemma {:induction false} WalkFrom<T>(xs: seq<T>, i: nat)
    requires i < |xs|
    ensures Walk(xs, Some(i)) == xs[i..]
    decreases |xs| - i
  {
    if i + 1 < |xs| {
      WalkFrom(xs, i + 1);
      assert xs[i..] == [xs[i]] + xs[i + 1..];
    } else {
      assert xs[i..] == [xs[i]];
    }
  }
}
