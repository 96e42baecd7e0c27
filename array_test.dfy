/** The behaviour the Array unit test asserts, replayed on the model. */
module ArrayTest {
  import opened Wrappers
  import opened Variables
  import opened Arrays

  /** The three dimensions the test appends. */
  function TestDims(): seq<Dim>
  {
    [FullDim("dim1", 4), FullDim("dim2", 3), FullDim("dim3", 2)]
  }

  /** `arrayT_test`: an Array of Int16 without dimensions has length -1;
      three full dimensions of sizes 4, 3 and 2 give lengths 4, 12 and 24,
      each with width twice the length; a cursor walk lists the dimensions
      in append order at full extent; constraining the first two
      dimensions to stride 2 gives 12 and then 8, and resetting the
      constraints gives 24 again. */
  method ArrayT() returns (lengths: seq<int>, widths: seq<Result<int>>, walked: seq<Dim>, count: nat)
    ensures lengths == [-1, -1, 4, 12, 24, 12, 8, 24]
    ensures widths == [Ok(-2), Ok(8), Ok(24), Ok(48)]
    ensures walked == TestDims()
    ensures count == 3
  {
    var ar;
    ar, lengths, widths := Build();
    walked := WalkDims(ar);
    count := ar.Dimensions();
    var constrained := Constrain(ar);
    lengths := lengths + constrained;
  }

  /** The Array of Int16 and its three dimensions, with the length and
      width after each step. */
  method Build() returns (ar: Array, lengths: seq<int>, widths: seq<Result<int>>)
    ensures fresh(ar) && ar.dims == TestDims()
    ensures lengths == [-1, -1, 4, 12, 24]
    ensures widths == [Ok(-2), Ok(8), Ok(24), Ok(48)]
  {
    ar := new Array("My Array");
    lengths := [ar.Length()];
    ar.AddVar(Some(Scalar("", Int16Kind, false, false)));
    lengths := lengths + [ar.Length()];
    widths := [ar.Width()];

    ar.AppendDim(4, "dim1");
    lengths := lengths + [ar.Length()];
    widths := widths + [ar.Width()];
    ar.AppendDim(3, "dim2");
    lengths := lengths + [ar.Length()];
    widths := widths + [ar.Width()];
    ar.AppendDim(2, "dim3");
    lengths := lengths + [ar.Length()];
    widths := widths + [ar.Width()];
  }

  /** `first_dim`/`next_dim`: the dimensions the cursor visits. */
  method WalkDims(ar: Array) returns (walked: seq<Dim>)
    ensures walked == ar.dims
  {
    WalkVisitsAll(ar.dims);
    walked := [];
    var p := ar.FirstDim();
    while p.Some?
      invariant p.Some? ==> p.value < |ar.dims|
      invariant walked + Walk(ar.dims, p) == ar.dims
      decreases if p.Some? then |ar.dims| - p.value else 0
    {
      walked := walked + [ar.DimAt(p).value];
      p := ar.NextDim(p);
    }
  }

  /** The two constraints and the reset, with the length after each. */
  method Constrain(ar: Array) returns (lengths: seq<int>)
    requires ar.dims == TestDims()
    modifies ar
    ensures lengths == [12, 8, 24]
  {
    var all := ar.dims;
    FullDimLength("dim2", 3);
    FullDimLength("dim3", 2);
    assert Product(all[1..]) == 6 by {
      var t := all[1..];
      assert t == [FullDim("dim2", 3), FullDim("dim3", 2)];
      assert t[..1] == [t[0]] && [t[0]][..0] == [];
      assert Product([t[0]]) == 3;
    }
    var r := ar.AddConstraint(0, 0, 2, 3);
    ConstrainLength(all, 0, ar.dims[0]);
    assert DimLength(ar.dims[0]) == 2;
    lengths := [ar.Length()];
    var before := ar.dims;
    assert Product(before[..1]) == 2 by {
      assert before[..1][..0] == [];
    }
    assert Product(before[2..]) == 2 by {
      assert before[2..][..0] == [];
    }
    r := ar.AddConstraint(1, 0, 2, 2);
    ConstrainLength(before, 1, ar.dims[1]);
    assert DimLength(ar.dims[1]) == 2;
    lengths := lengths + [ar.Length()];
    assert SizeProduct(ar.dims) == 24 by {
      var t := ar.dims;
      assert t[..2][..1] == t[..1] && t[..1][..0] == [];
      assert SizeProduct(t[..1]) == 4;
    }
    ar.ResetConstraint();
    lengths := lengths + [ar.Length()];
  }
}
