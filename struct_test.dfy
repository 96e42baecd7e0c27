/** The behaviour the Structure unit test asserts, replayed on the
    model. */
module StructTest {
  import opened Wrappers
  import opened Variables
  import opened Arrays
  import opened Structures

  /** The members the test adds, in order. */
  function TestMembers(): seq<Var>
  {
    [Scalar("name_int16", Int16Kind, false, false),
     Scalar("name_str", StrKind, false, false),
     ArrayVar("array_int", Scalar("array_int", Int16Kind, false, false),
              [FullDim("dim1", 4), FullDim("dim2", 3), FullDim("dim3", 2)], false, false)]
  }

  /** `structT_test`: a Structure holding an Int16, a Str and an Array of
      Int16 with dimensions 4 x 3 x 2 finds `name_str` by name, lists its
      members in insertion order under their own names (the Array under
      its element's name `array_int`), counts three members, and is as
      wide as a string plus an Int16 plus 24 Int16s. */
  method StructT() returns (found: Option<Var>, names: seq<string>, count: nat, w: int)
    ensures found.Some? && found.value.name == "name_str"
    ensures names == ["name_int16", "name_str", "array_int"]
    ensures count == 3
    ensures w == StrWidth + 2 + 24 * 2
  {
    var s := Build();
    found := s.Var("name_str");
    LookupDirect(s.vars, 1);
    names := WalkNames(s);
    count := s.ElementCount();
    w := s.Width();
  }

  /** The Structure built by successive `add_var` calls; the Array takes
      its element's name. */
  method Build() returns (s: Structure)
    ensures fresh(s) && s.vars == TestMembers()
    ensures s.Width() == StrWidth + 2 + 24 * 2
  {
    s := new Structure("my_structure");
    s.AddVar(Scalar("name_int16", Int16Kind, false, false));
    s.AddVar(Scalar("name_str", StrKind, false, false));
    var abt := new Array("name_array");
    abt.AddVar(Some(Scalar("array_int", Int16Kind, false, false)));
    abt.AppendDim(4, "dim1");
    abt.AppendDim(3, "dim2");
    abt.AppendDim(2, "dim3");
    var aw := abt.Width();
    assert abt.dims == [FullDim("dim1", 4), FullDim("dim2", 3), FullDim("dim3", 2)];
    assert abt.AsVar() == TestMembers()[2];
    assert abt.Length() == 24;
    assert Variables.Width(abt.AsVar()) == 24 * 2;
    assert s.Width() == 2 + StrWidth;
    s.AddVar(abt.AsVar());
  }

  /** `first_var`/`next_var`/`var(Pix)`: the names the cursor visits. */
  method WalkNames(s: Structure) returns (names: seq<string>)
    ensures names == Names(s.vars)
  {
    names := [];
    var p := s.FirstVar();
    while p.Some?
      invariant p.Some? ==> p.value < |s.vars|
      invariant |names| == (if p.Some? then p.value else |s.vars|)
      invariant forall j :: 0 <= j < |names| ==> names[j] == s.vars[j].name
      decreases if p.Some? then |s.vars| - p.value else 0
    {
      names := names + [s.VarAt(p).value.name];
      p := s.NextVar(p);
    }
  }
}
