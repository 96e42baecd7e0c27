/** The UInt64 scalar: a 64-bit unsigned value with its read flag, the
    buffer conversions, copying, and the relational comparison against a
    second operand of any kind. */
module UInt64Scalar {
  import opened Wrappers
  import opened Variables

  const Two64: int := 0x1_0000_0000_0000_0000
  const Two63: int := 0x8000_0000_0000_0000

  /** `dods_uint64`. */
  type Word = x: int | 0 <= x < 0x1_0000_0000_0000_0000

  /** The relational operators of the constraint language; `OtherOp`
      stands for any code `rops` does not know. */
  datatype RelOp = Equal | NotEqual | Greater | GreaterEql | Less | LessEql | Regexp | OtherOp

  /** `rops` on two numbers already converted to a common type: the
      comparison the operator names; a regular expression or an unknown
      operator compares false. */
  function Compare(op: RelOp, a: int, b: int): (r: bool)
    ensures op.Regexp? || op.OtherOp? ==> !r
  {
    match op
    case Equal => a == b
    case NotEqual => a != b
    case Greater => a > b
    case GreaterEql => a >= b
    case Less => a < b
    case LessEql => a <= b
    case Regexp => false
    case OtherOp => false
  }

  /** `Cmp<dods_uint64, T>` for a signed 64-bit `T`: the usual arithmetic
      conversions turn the signed value into an unsigned one, modulo
      2^64. */
  function ToUnsigned(v: int): (r: Word)
    ensures 0 <= v < Two64 ==> r == v
    ensures -Two63 <= v < 0 ==> r == v + Two64
  {
    v % Two64
  }

  /** `USCmp`: the signed operand is compared as if negative values were
      zero (`dap_floor_zero`). */
  function FloorZero(v: int): (r: nat)
    ensures v >= 0 ==> r == v
    ensures v < 0 ==> r == 0
  {
    if v < 0 then 0 else v
  }

  /** A UInt64 read through `Int64::value()`: the same 64 bits taken as a
      signed number. */
  function AsInt64(v: Word): (r: int)
    ensures -Two63 <= r < Two63
    ensures ToUnsigned(r) == v
  {
    if v < Two63 then v else v - Two64
  }

  /** The second operand of `ops`: its kind, its value in that kind's own
      range, and its read flag. */
  datatype Operand = Operand(kind: Kind, value: int, readP: bool)

  /** The value fits the C++ type of the operand's kind. */
  predicate Typed(b: Operand)
  {
    match b.kind
    case ScalarOf(ByteKind) => 0 <= b.value < 0x100
    case ScalarOf(Int16Kind) => -0x8000 <= b.value < 0x8000
    case ScalarOf(UInt16Kind) => 0 <= b.value < 0x1_0000
    case ScalarOf(Int32Kind) => -0x8000_0000 <= b.value < 0x8000_0000
    case ScalarOf(UInt32Kind) => 0 <= b.value < 0x1_0000_0000
    case ScalarOf(Int64Kind) => -Two63 <= b.value < Two63
    case ScalarOf(UInt64Kind) => 0 <= b.value < Two64
    case _ => true
  }

  predicate IsFloat(k: Kind)
  {
    k == ScalarOf(Float32Kind) || k == ScalarOf(Float64Kind)
  }

  /** The integer kinds `ops` compares. */
  predicate IsInteger(k: Kind)
  {
    k.ScalarOf? && !IsFloat(k) && !k.scalar.StrKind? && !k.scalar.UrlKind?
  }

  /** The second operand once `ops` has made sure it is read: when it was
      not, a successful `read()` (`loaded` is not `None`) gives it the value
      it loads and marks it read. */
  function Loaded(b: Operand, loaded: Option<int>): (o: Operand)
    ensures o.kind == b.kind
    ensures o.readP <==> b.readP || loaded.Some?
  {
    if b.readP || loaded.None? then b else Operand(b.kind, loaded.value, true)
  }

  /** The checks `ops` makes before it compares: this value is read or its
      `read()` succeeds (`selfRead` is the value it loads, `None` when it
      fails), and the other operand is present and read or its `read()`
      succeeds (`otherRead`, likewise). */
  function ReadCheck(readP: bool, b: Option<Operand>, selfRead: Option<Word>, otherRead: Option<int>): (r: Result<()>)
    ensures r.Err? <==> (!readP && selfRead.None?) || b.None? || (!b.value.readP && otherRead.None?)
    ensures r.Err? ==> r.error.InternalErr?
  {
    if !readP && selfRead.None? then Err(InternalErr("This value was not read!"))
    else if b.None? || !(b.value.readP || otherRead.Some?) then Err(InternalErr("This value was not read!"))
    else Ok(())
  }

  class UInt64 {
    var name: string
    var buf: Word
    var readP: bool

    /** `UInt64(n)`: a variable named `n`, not read; the stored value is
        left uninitialised. */
    constructor (n: string)
      ensures name == n && !readP
    {
      name, readP := n, false;
    }

    /** The copy constructor: name, flag and value of `from`. */
    constructor Copy(from: UInt64)
      ensures name == from.name && buf == from.buf && readP == from.readP
    {
      name, buf, readP := from.name, from.buf, from.readP;
    }

    /** `operator=`: copies `rhs`; assigning a variable to itself changes
        nothing. */
    method Assign(rhs: UInt64)
      modifies this
      ensures name == old(rhs.name) && buf == old(rhs.buf) && readP == old(rhs.readP)
      ensures rhs == this ==> name == old(name) && buf == old(buf) && readP == old(readP)
    {
      if rhs == this {
        return;
      }
      name, buf, readP := rhs.name, rhs.buf, rhs.readP;
    }

    /** `width()`: the size of `dods_uint64`, whatever the value. */
    function Width(): (w: nat)
      ensures w == ScalarWidth(UInt64Kind) == 8
    {
      8
    }

    /** `value()`. */
    function Value(): (v: Word)
      reads this
      ensures v == buf
    {
      buf
    }

    /** `set_value(i)`: stores `i`, marks the variable read and reports
        success. */
    method SetValue(i: Word) returns (ok: bool)
      modifies this
      ensures Value() == i && readP && ok
      ensures name == old(name)
    {
      buf := i;
      readP := true;
      ok := true;
    }

    /** `val2buf(val)`: stores the value `val` points to and returns the
        width; a null pointer is an internal error and stores nothing. */
    method Val2Buf(val: Option<Word>) returns (r: Result<nat>)
      modifies this
      ensures val.None? ==> r.Err? && r.error.InternalErr? && buf == old(buf)
      ensures val.Some? ==> r == Ok(Width()) && buf == val.value
      ensures name == old(name) && readP == old(readP)
    {
      if val.None? {
        return Err(InternalErr("The incoming pointer does not contain any data."));
      }
      buf := val.value;
      r := Ok(Width());
    }

    /** `buf2val(val)`: `val` is a pointer to a possibly null pointer.  The
        stored value is written through it, into new storage
        (`created`) when the inner pointer is null; a null outer
        pointer is an internal error. */
    method Buf2Val(val: Option<Option<Word>>) returns (r: Result<nat>, out: Option<Option<Word>>, created: bool)
      ensures val.None? ==> r.Err? && r.error.InternalErr? && out == val && !created
      ensures val.Some? ==> r == Ok(Width()) && out == Some(Some(buf)) && created == val.value.None?
    {
      if val.None? {
        return Err(InternalErr("NULL pointer.")), val, false;
      }
      created := val.value.None?;
      out := Some(Some(buf));
      r := Ok(Width());
    }

    /** The value `ops` compares this variable by: the stored one once it
        is read, otherwise the one its `read()` loads. */
    function Current(selfRead: Option<Word>): Word
      requires readP || selfRead.Some?
      reads this
    {
      if readP then buf else selfRead.value
    }

    /** `ops(b, op)` as written.  Int16 and Int32 operands are compared
        with `USCmp`; an Int64 operand with the plain `Cmp`, which
        converts it to unsigned; a UInt64 operand is read through
        `Int64::value()` and converted back.  Non-numeric kinds compare
        false; the floating-point kinds give `floatResult`.  An operand
        that is not read yet is compared by the value its `read()` loads. */
    function OpsAsWritten(b: Option<Operand>, op: RelOp, selfRead: Option<Word>, otherRead: Option<int>, floatResult: bool): (r: Result<bool>)
      requires b.Some? ==> Typed(Loaded(b.value, otherRead))
      reads this
      ensures r.Err? <==> ReadCheck(readP, b, selfRead, otherRead).Err?
      ensures r.Err? ==> r.error.InternalErr?
      ensures r.Ok? && !IsInteger(b.value.kind) && !IsFloat(b.value.kind) ==> r == Ok(false)
      ensures r.Ok? && IsFloat(b.value.kind) ==> r == Ok(floatResult)
      ensures r.Ok? && IsInteger(b.value.kind) && Loaded(b.value, otherRead).value >= 0 ==>
        r == Ok(Compare(op, Current(selfRead), Loaded(b.value, otherRead).value))
      ensures r.Ok? && IsInteger(b.value.kind) && b.value.kind != ScalarOf(Int64Kind) && Loaded(b.value, otherRead).value < 0 ==>
        r == Ok(Compare(op, Current(selfRead), 0))
      ensures r.Ok? && b.value.kind == ScalarOf(Int64Kind) && Loaded(b.value, otherRead).value < 0 ==>
        r == Ok(Compare(op, Current(selfRead), Loaded(b.value, otherRead).value + Two64))
    {
      if ReadCheck(readP, b, selfRead, otherRead).Err? then Err(InternalErr("This value was not read!"))
      else
        var x := Current(selfRead);
        var o := Loaded(b.value, otherRead);
        var v := o.value;
        match o.kind
        case ScalarOf(ByteKind) => Ok(Compare(op, x, v))
        case ScalarOf(Int16Kind) => Ok(Compare(op, x, FloorZero(v)))
        case ScalarOf(UInt16Kind) => Ok(Compare(op, x, v))
        case ScalarOf(Int32Kind) => Ok(Compare(op, x, FloorZero(v)))
        case ScalarOf(UInt32Kind) => Ok(Compare(op, x, v))
        case ScalarOf(Int64Kind) => Ok(Compare(op, x, ToUnsigned(v)))
        case ScalarOf(UInt64Kind) => Ok(Compare(op, x, ToUnsigned(AsInt64(v))))
        case ScalarOf(Float32Kind) => Ok(floatResult)
        case ScalarOf(Float64Kind) => Ok(floatResult)
        case _ => Ok(false)
    }

    /** `ops(b, op)` with the Int64 operand compared through `USCmp`, like
        the other signed kinds. */
    function Ops(b: Option<Operand>, op: RelOp, selfRead: Option<Word>, otherRead: Option<int>, floatResult: bool): (r: Result<bool>)
      requires b.Some? ==> Typed(Loaded(b.value, otherRead))
      reads this
      ensures r.Err? <==> ReadCheck(readP, b, selfRead, otherRead).Err?
      ensures r.Err? ==> r.error.InternalErr?
      ensures r.Ok? && !IsInteger(b.value.kind) && !IsFloat(b.value.kind) ==> r == Ok(false)
      ensures r.Ok? && IsFloat(b.value.kind) ==> r == Ok(floatResult)
      ensures r.Ok? && IsInteger(b.value.kind) ==>
        r == Ok(Compare(op, Current(selfRead), FloorZero(Loaded(b.value, otherRead).value)))
    {
      if ReadCheck(readP, b, selfRead, otherRead).Err? then Err(InternalErr("This value was not read!"))
      else
        var x := Current(selfRead);
        var o := Loaded(b.value, otherRead);
        var v := o.value;
        match o.kind
        case ScalarOf(ByteKind) => Ok(Compare(op, x, v))
        case ScalarOf(Int16Kind) => Ok(Compare(op, x, FloorZero(v)))
        case ScalarOf(UInt16Kind) => Ok(Compare(op, x, v))
        case ScalarOf(Int32Kind) => Ok(Compare(op, x, FloorZero(v)))
        case ScalarOf(UInt32Kind) => Ok(Compare(op, x, v))
        case ScalarOf(Int64Kind) => Ok(Compare(op, x, FloorZero(v)))
        case ScalarOf(UInt64Kind) => Ok(Compare(op, x, ToUnsigned(AsInt64(v))))
        case ScalarOf(Float32Kind) => Ok(floatResult)
        case ScalarOf(Float64Kind) => Ok(floatResult)
        case _ => Ok(false)
    }

    /** `ops(b, op)` with its effect on this variable: one that is not read
        is read first, and a successful `read()` stores the value it loads
        and marks the variable read, whatever the rest of the call does. */
    method OpsCall(b: Option<Operand>, op: RelOp, selfRead: Option<Word>, otherRead: Option<int>, floatResult: bool) returns (r: Result<bool>)
      requires b.Some? ==> Typed(Loaded(b.value, otherRead))
      modifies this
      ensures r == old(OpsAsWritten(b, op, selfRead, otherRead, floatResult))
      ensures readP == (old(readP) || selfRead.Some?)
      ensures buf == if old(readP) || selfRead.None? then old(buf) else selfRead.value
      ensures name == old(name)
    {
      if !readP {
        if selfRead.None? {
          return Err(InternalErr("This value was not read!"));
        }
        buf, readP := selfRead.value, true;
      }
      if b.None? || !(b.value.readP || otherRead.Some?) {
        return Err(InternalErr("This value was not read!"));
      }
      r := OpsAsWritten(b, op, None, otherRead, floatResult);
    }
  }

  /** The code as written agrees with the corrected comparison on every
      operand except a negative Int64. */
  lemma OpsAgreeOutsideNegativeInt64(u: UInt64, b: Option<Operand>, op: RelOp, selfRead: Option<Word>, otherRead: Option<int>, floatResult: bool)
    requires b.Some? ==> Typed(Loaded(b.value, otherRead))
    requires b.Some? && b.value.kind == ScalarOf(Int64Kind) ==> Loaded(b.value, otherRead).value >= 0
    ensures u.OpsAsWritten(b, op, selfRead, otherRead, floatResult) == u.Ops(b, op, selfRead, otherRead, floatResult)
  {
  }

  /** A UInt64 operand survives the trip through `Int64::value()`: the
      comparison sees its own value. */
  lemma UInt64OperandUnchanged(v: Word)
    ensures ToUnsigned(AsInt64(v)) == v
  {
  }

  /** As written, 5 > Int64(-1) is false, because -1 becomes 2^64 - 1,
      while 5 > Int32(-1) is true. */
  lemma OpsInt64Counterexample(u: UInt64)
    requires u.readP && u.buf == 5
    ensures u.OpsAsWritten(Some(Operand(ScalarOf(Int64Kind), -1, true)), Greater, None, None, false) == Ok(false)
    ensures u.OpsAsWritten(Some(Operand(ScalarOf(Int32Kind), -1, true)), Greater, None, None, false) == Ok(true)
    ensures u.Ops(Some(Operand(ScalarOf(Int64Kind), -1, true)), Greater, None, None, false) == Ok(true)
  {
    assert ToUnsigned(-1) == Two64 - 1;
  }

  /** A variable that is not read yet is compared by the value its
      `read()` loads, not by the stale stored one: with 0 stored and 7
      loaded, it is greater than Int32(5); an operand read the same way
      is compared by its loaded value too. */
  lemma OpsComparesLoadedValue(u: UInt64)
    requires !u.readP && u.buf == 0
    ensures u.OpsAsWritten(Some(Operand(ScalarOf(Int32Kind), 5, true)), Greater, Some(7), None, false) == Ok(true)
    ensures u.OpsAsWritten(Some(Operand(ScalarOf(Int32Kind), 9, false)), Greater, Some(7), Some(5), false) == Ok(true)
    ensures u.Ops(Some(Operand(ScalarOf(Int32Kind), 5, true)), Greater, Some(7), None, false) == Ok(true)
  {
  }

  /** `val2buf` followed by `buf2val` hands back the stored value. */
  method ValueRoundTrip(u: UInt64, v: Word) returns (out: Option<Option<Word>>)
    modifies u
    ensures out == Some(Some(v)) && u.buf == v
  {
    var r := u.Val2Buf(Some(v));
    var r', created;
    r', out, created := u.Buf2Val(Some(None));
  }
}
