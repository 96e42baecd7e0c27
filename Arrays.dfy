/** Array dimension bookkeeping: an element template and an ordered list
    of dimensions, each with a full size and a constraint
    (start, stop, stride), and the lengths and widths derived from them. */
module Arrays {
  import opened Wrappers
  import opened Variables

  /** A dimension as `append_dim` creates it: the full extent. */
  function FullDim(n: string, size: int): Dim
  {
    Dim(n, size, 0, size - 1, 1)
  }

  /** The same dimension with its constraint removed. */
  function Unconstrained(d: Dim): Dim
  {
    FullDim(d.name, d.size)
  }

  /** A constraint that selects part of a dimension of `size` elements. */
  predicate ConstraintFits(size: int, start: int, stride: int, stop: int)
  {
    0 <= start <= stop < size && stride >= 1
  }

  predicate DimValid(d: Dim)
  {
    ConstraintFits(d.size, d.start, d.stride, d.stop)
  }

  /** The product of the dimensions' full sizes. */
  function SizeProduct(ds: seq<Dim>): int
    decreases |ds|
  {
    if ds == [] then 1 else SizeProduct(ds[..|ds| - 1]) * ds[|ds| - 1].size
  }

  /** Every dimension with its constraint removed. */
  function Reset(ds: seq<Dim>): (r: seq<Dim>)
    ensures |r| == |ds|
    ensures forall i :: 0 <= i < |ds| ==> r[i] == Unconstrained(ds[i])
  {
    if ds == [] then [] else Reset(ds[..|ds| - 1]) + [Unconstrained(ds[|ds| - 1])]
  }

  /** A full-extent dimension contributes its whole size, whatever it is. */
  lemma FullDimLength(n: string, size: int)
    ensures DimLength(FullDim(n, size)) == size
  {
  }

  /** The constrained length of a dimension is `(stop - start) / stride + 1`
      when the constraint fits, and then lies between 1 and the size. */
  lemma ConstrainedDimLength(d: Dim)
    requires DimValid(d)
    ensures DimLength(d) == (d.stop - d.start) / d.stride + 1
    ensures 1 <= DimLength(d) <= d.size
  {
    var q := (d.stop - d.start) / d.stride;
    assert q * d.stride <= d.stop - d.start;
    assert q <= q * d.stride;
  }

  lemma {:induction false} ProductAppend(a: seq<Dim>, b: seq<Dim>)
    ensures Product(a + b) == Product(a) * Product(b)
    decreases |b|
  {
    if b == [] {
      assert a + b == a;
    } else {
      var b', last := b[..|b| - 1], b[|b| - 1];
      assert (a + b)[..|a + b| - 1] == a + b';
      assert (a + b)[|a + b| - 1] == last;
      var x, y, z := Product(a), Product(b'), DimLength(last);
      assert Product(a + b) == Product(a + b') * z;
      assert Product(b) == y * z;
      ProductAppend(a, b');
      MulAssoc(x, y, z);
    }
  }

  lemma MulAssoc(x: int, y: int, z: int)
    ensures (x * y) * z == x * (y * z)
  {
  }

  /** The length splits around any one dimension. */
  lemma ProductAround(ds: seq<Dim>, i: nat)
    requires i < |ds|
    ensures Product(ds) == Product(ds[..i]) * DimLength(ds[i]) * Product(ds[i + 1..])
  {
    assert ds == ds[..i] + [ds[i]] + ds[i + 1..];
    ProductAppend(ds[..i] + [ds[i]], ds[i + 1..]);
    ProductAppend(ds[..i], [ds[i]]);
    assert Product([ds[i]]) == DimLength(ds[i]) by {
      assert [ds[i]][..0] == [];
    }
  }

  /** Constraining one dimension changes only that dimension's factor of
      the length. */
  lemma ConstrainLength(ds: seq<Dim>, i: nat, d: Dim)
    requires i < |ds|
    ensures ArrayLength(ds) == Product(ds[..i]) * DimLength(ds[i]) * Product(ds[i + 1..])
    ensures ArrayLength(ds[i := d]) == Product(ds[..i]) * DimLength(d) * Product(ds[i + 1..])
  {
    ProductAround(ds, i);
    ProductAround(ds[i := d], i);
    assert ds[i := d][..i] == ds[..i];
    assert ds[i := d][i + 1..] == ds[i + 1..];
  }

  /** Each appended dimension multiplies the length by its size; the first
      one replaces the -1 of an array without dimensions. */
  lemma AppendDimLength(ds: seq<Dim>, n: string, size: int)
    ensures ArrayLength(ds + [FullDim(n, size)]) == if ds == [] then size else ArrayLength(ds) * size
  {
    var ds' := ds + [FullDim(n, size)];
    assert ds'[..|ds'| - 1] == ds;
    FullDimLength(n, size);
    assert Product(ds') == Product(ds) * size;
    if ds == [] {
      assert Product(ds) == 1;
    }
  }

  /** Without constraints the length is the product of the full sizes. */
  lemma {:induction false} ResetLength(ds: seq<Dim>)
    ensures Product(Reset(ds)) == SizeProduct(ds)
    decreases |ds|
  {
    if ds != [] {
      var r := Reset(ds);
      assert r[..|r| - 1] == Reset(ds[..|ds| - 1]);
      ResetLength(ds[..|ds| - 1]);
      FullDimLength(ds[|ds| - 1].name, ds[|ds| - 1].size);
    }
  }

  /** Resetting forgets any constraint: it depends only on the names and
      sizes. */
  lemma ResetForgetsConstraint(ds: seq<Dim>, i: nat, start: int, stride: int, stop: int)
    requires i < |ds|
    ensures Reset(ds[i := ds[i].(start := start, stride := stride, stop := stop)]) == Reset(ds)
  {
  }

  /** An Array variable.  `template` is the element variable (`var()`),
      `None` before `add_var`. */
  class Array {
    var name: string
    var template: Option<Var>
    var dims: seq<Dim>
    var read: bool
    var send: bool

    /** An Array with no element type and no dimensions. */
    constructor (n: string)
      ensures name == n && template == None && dims == [] && !read && !send
    {
      name, template, dims, read, send := n, None, [], false, false;
    }

    /** `add_var`: the template becomes a copy of `v`.  A named template
        renames the Array; an unnamed one takes the Array's name. */
    method AddVar(v: Option<Var>)
      modifies this
      ensures v.None? ==> template == None && name == old(name)
      ensures v.Some? && v.value.name != "" ==> template == v && name == v.value.name
      ensures v.Some? && v.value.name == "" ==> template == Some(v.value.(name := old(name))) && name == old(name)
      ensures dims == old(dims) && read == old(read) && send == old(send)
    {
      if v.None? {
        template := None;
      } else if v.value.name != "" {
        template := v;
        name := v.value.name;
      } else {
        template := Some(v.value.(name := name));
      }
    }

    /** `append_dim(size, name)`: a new last dimension, full extent. */
    method AppendDim(size: int, n: string)
      modifies this
      ensures dims == old(dims) + [FullDim(n, size)]
      ensures Length() == if old(dims) == [] then size else old(Length()) * size
      ensures name == old(name) && template == old(template) && read == old(read) && send == old(send)
    {
      AppendDimLength(dims, n, size);
      dims := dims + [FullDim(n, size)];
    }

    /** `add_constraint(dim, start, stride, stop)` on the dimension at
        position `i`.  A constraint that does not fit the dimension is a
        malformed expression and changes nothing. */
    method AddConstraint(i: nat, start: int, stride: int, stop: int) returns (r: Result<()>)
      requires i < |dims|
      modifies this
      ensures r.Ok? <==> ConstraintFits(old(dims)[i].size, start, stride, stop)
      ensures r.Ok? ==> dims == old(dims)[i := old(dims)[i].(start := start, stride := stride, stop := stop)]
      ensures r.Ok? ==> DimValid(dims[i]) && DimLength(dims[i]) == (stop - start) / stride + 1
      ensures r.Err? ==> r.error.MalformedExpr? && dims == old(dims)
      ensures name == old(name) && template == old(template) && read == old(read) && send == old(send)
    {
      if !ConstraintFits(dims[i].size, start, stride, stop) {
        return Err(MalformedExpr("Invalid constraint parameters"));
      }
      dims := dims[i := dims[i].(start := start, stride := stride, stop := stop)];
      ConstrainedDimLength(dims[i]);
      r := Ok(());
    }

    /** `reset_constraint`: every dimension back to its full extent. */
    method ResetConstraint()
      modifies this
      ensures dims == Reset(old(dims))
      ensures dims != [] ==> Length() == SizeProduct(old(dims))
      ensures name == old(name) && template == old(template) && read == old(read) && send == old(send)
    {
      var k := 0;
      while k < |dims|
        invariant k <= |dims| == |old(dims)|
        invariant forall j :: 0 <= j < k ==> dims[j] == Unconstrained(old(dims)[j])
        invariant forall j :: k <= j < |dims| ==> dims[j] == old(dims)[j]
        invariant name == old(name) && template == old(template) && read == old(read) && send == old(send)
      {
        dims := dims[k := Unconstrained(dims[k])];
        k := k + 1;
      }
      ResetLength(old(dims));
    }

    /** `length()`: the number of selected elements, -1 without dimensions. */
    function Length(): (n: int)
      reads this
      ensures dims == [] ==> n == -1
      ensures dims != [] ==> n == Product(dims)
      ensures |dims| == 1 ==> n == DimLength(dims[0])
    {
      ArrayLength(dims)
    }

    /** `dimensions()`. */
    function Dimensions(): (n: nat)
      reads this
      ensures n == |dims|
    {
      |dims|
    }

    /** `first_dim()`. */
    function FirstDim(): (p: Pix)
      reads this
      ensures p.Some? <==> dims != []
    {
      First(dims)
    }

    /** `next_dim(p)`: the next dimension, or null after the last. */
    method NextDim(p: Pix) returns (q: Pix)
      ensures q == Next(dims, p)
    {
      q := Next(dims, p);
    }

    /** The dimension at a cursor, whose `dimension_name`,
        `dimension_size`, `dimension_start`, `dimension_stop` and
        `dimension_stride` are its fields. */
    function DimAt(p: Pix): (r: Option<Dim>)
      reads this
      ensures r.Some? <==> p.Some? && p.value < |dims|
      ensures r.Some? ==> r.value == dims[p.value]
    {
      At(dims, p)
    }

    /** The Array as a variable value, for storing it in a constructor. */
    function AsVar(): (v: Var)
      requires template.Some?
      reads this
      ensures v.ArrayVar? && v.name == name && v.dims == dims && v.template == template.value
    {
      ArrayVar(name, template.value, dims, read, send)
    }

    /** `width()`: the length times the element's width; an Array without
        an element type has none. */
    function Width(): (r: Result<int>)
      reads this
      ensures r.Ok? <==> template.Some?
      ensures r.Ok? ==> r.value == Length() * Variables.Width(template.value)
      ensures r.Ok? ==> r.value == Variables.Width(AsVar())
      ensures r.Err? ==> r.error.InternalErr?
    {
      if template.None? then Err(InternalErr("Array has no element type"))
      else Ok(Length() * Variables.Width(template.value))
    }
  }
}
