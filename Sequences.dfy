/** The Sequence constructor type.  Its member list describes one row
    (one instance); the rows themselves arrive one at a time, each read by
    a `deserialize` call, and a marker after each row says whether another
    row follows. */
module Sequences {
  import opened Wrappers
  import opened Variables
  import opened Escaping

  /** The two markers a reader finds after a row.  Their byte values are
      not part of this model: any two distinct bytes serve. */
  const EndOfInstance: Byte := 0x5A
  const EndOfSequence: Byte := 0xA5

  /** `is_end_of_instance`. */
  predicate IsEndOfInstance(marker: Byte)
  {
    marker == EndOfInstance
  }

  /** `is_end_of_sequence`. */
  predicate IsEndOfSequence(marker: Byte)
  {
    marker == EndOfSequence
  }

  /** No marker is both. */
  lemma MarkersDistinct(marker: Byte)
    ensures !(IsEndOfInstance(marker) && IsEndOfSequence(marker))
  {
  }

  /** The incoming stream, one item per read: a member value or a marker.
      Reading consumes items from the front. */
  datatype Token = Field(value: int) | Marker(b: Byte)

  /** What one `deserialize` call found after the row. */
  datatype Outcome = More | Last | Failed

  /** The result of reading one row: the outcome, the values of the
      members that were read and the number of items consumed. */
  datatype RowRead = RowRead(outcome: Outcome, values: seq<int>, used: nat)

  /** The number of member values readable at the front of `src`, at most
      `n`. */
  function FieldRun(src: seq<Token>, n: nat): (k: nat)
    ensures k <= n && k <= |src|
    decreases n
  {
    if n == 0 || src == [] || src[0].Marker? then 0
    else 1 + FieldRun(src[1..], n - 1)
  }

  /** The member values among the first `k` items, in order. */
  function FieldValues(src: seq<Token>, k: nat): seq<int>
    requires k <= |src|
  {
    if k == 0 then []
    else FieldValues(src, k - 1) + (if src[k - 1].Field? then [src[k - 1].value] else [])
  }

  /** What a marker says: more rows, the last row, or an error when it is
      neither end marker. */
  function MarkerMeaning(m: Byte): Outcome
  {
    if IsEndOfInstance(m) then More
    else if IsEndOfSequence(m) then Last
    else Failed
  }

  /** What the item at `i` says; a missing marker, or a member value where
      the marker should be, is an error. */
  function MarkerOutcome(src: seq<Token>, i: nat): Outcome
  {
    if i >= |src| || src[i].Field? then Failed else MarkerMeaning(src[i].b)
  }

  /** One row of `n` members read from the front of `src`: the members in
      order, then the marker.  A member that cannot be read is an error,
      and so is a marker that is missing or is neither end marker. */
  function ReadRow(src: seq<Token>, n: nat): (r: RowRead)
    ensures r.used <= |src| && (r.outcome != Failed ==> r.used > 0)
  {
    var k := FieldRun(src, n);
    var vals := FieldValues(src, k);
    if k < n then RowRead(Failed, vals, k)
    else RowRead(MarkerOutcome(src, n), vals, Min(n + 1, |src|))
  }

  /** The stream a writer sends for `rows`: each row's members followed by
      the end-of-instance marker, except the last row, which is followed
      by the end-of-sequence marker. */
  function Encode(rows: seq<seq<int>>): seq<Token>
    decreases |rows|
  {
    if rows == [] then []
    else if |rows| == 1 then Fields(rows[0]) + [Marker(EndOfSequence)]
    else Fields(rows[0]) + ([Marker(EndOfInstance)] + Encode(rows[1..]))
  }

  function Fields(vs: seq<int>): (ts: seq<Token>)
    ensures |ts| == |vs| && forall j :: 0 <= j < |vs| ==> ts[j] == Field(vs[j])
  {
    if vs == [] then [] else Fields(vs[..|vs| - 1]) + [Field(vs[|vs| - 1])]
  }

  /** Every row has `n` members. */
  predicate Rectangular(rows: seq<seq<int>>, n: nat)
  {
    forall j :: 0 <= j < |rows| ==> |rows[j]| == n
  }

  /** Rows read one `deserialize` call after another until one of them
      returns false, and whether the last call found an error. */
  function ReadRows(src: seq<Token>, n: nat): (seq<seq<int>>, bool)
    decreases |src|
  {
    var r := ReadRow(src, n);
    match r.outcome
    case More =>
      var (rest, err) := ReadRows(src[r.used..], n);
      ([r.values] + rest, err)
    case Last => ([r.values], false)
    case Failed => ([r.values], true)
  }

  lemma {:induction false} FieldRunAll(src: seq<Token>, n: nat)
    requires n <= |src| && forall j :: 0 <= j < n ==> src[j].Field?
    ensures FieldRun(src, n) == n
    decreases n
  {
    if n > 0 {
      var rest := src[1..];
      assert forall j :: 0 <= j < n - 1 ==> rest[j] == src[j + 1];
      FieldRunAll(rest, n - 1);
    }
  }

  lemma {:induction false} FieldValuesOf(src: seq<Token>, vs: seq<int>, k: nat)
    requires k <= |vs| <= |src| && forall j :: 0 <= j < |vs| ==> src[j] == Field(vs[j])
    ensures FieldValues(src, k) == vs[..k]
  {
    if k > 0 {
      FieldValuesOf(src, vs, k - 1);
      assert vs[..k] == vs[..k - 1] + [vs[k - 1]];
    }
  }

  /** The members of a row written at the front of a stream are read
      back in full. */
  lemma RowPrefix(vs: seq<int>, rest: seq<Token>)
    ensures |vs| <= |Fields(vs) + rest|
    ensures FieldRun(Fields(vs) + rest, |vs|) == |vs|
    ensures FieldValues(Fields(vs) + rest, |vs|) == vs
  {
    var src := Fields(vs) + rest;
    var n := |vs|;
    assert forall j :: 0 <= j < n ==> src[j] == Fields(vs)[j];
    FieldRunAll(src, n);
    FieldValuesOf(src, vs, n);
    assert vs[..n] == vs;
  }

  /** A row followed by a marker reads back as that row; the marker
      decides the outcome, and the row and its marker are consumed. */
  lemma ReadRowOf(vs: seq<int>, m: Byte, tail: seq<Token>)
    ensures ReadRow(Fields(vs) + ([Marker(m)] + tail), |vs|) == RowRead(MarkerMeaning(m), vs, |vs| + 1)
  {
    var rest := [Marker(m)] + tail;
    var src := Fields(vs) + rest;
    RowPrefix(vs, rest);
    assert src[|vs|] == Marker(m);
  }

  lemma ReadRowsUnfold(src: seq<Token>, n: nat)
    ensures var r := ReadRow(src, n);
      (r.outcome == More ==>
         ReadRows(src, n) == ([r.values] + ReadRows(src[r.used..], n).0, ReadRows(src[r.used..], n).1)) &&
      (r.outcome == Last ==> ReadRows(src, n) == ([r.values], false)) &&
      (r.outcome == Failed ==> ReadRows(src, n) == ([r.values], true))
  {
  }

  /** Reading a stream a writer produced returns exactly its rows, in
      order, and ends cleanly: `seq_read_error` stays false.  Whatever
      follows the end-of-sequence marker is not read. */
  lemma {:induction false} ReadRowsOfEncode(rows: seq<seq<int>>, n: nat, tail: seq<Token>)
    requires rows != [] && Rectangular(rows, n)
    ensures ReadRows(Encode(rows) + tail, n) == (rows, false)
    decreases |rows|
  {
    assert |rows[0]| == n;
    if |rows| == 1 {
      assert rows == [rows[0]];
      ReadRowsLastRow(rows[0], tail);
    } else {
      ReadRowsNextRow(rows, tail);
      assert Rectangular(rows[1..], n);
      ReadRowsOfEncode(rows[1..], n, tail);
      assert [rows[0]] + rows[1..] == rows;
    }
  }

  lemma ReadRowsLastRow(vs: seq<int>, tail: seq<Token>)
    ensures ReadRows(Encode([vs]) + tail, |vs|) == ([vs], false)
  {
    var src := Encode([vs]) + tail;
    assert src == Fields(vs) + ([Marker(EndOfSequence)] + tail);
    ReadRowOf(vs, EndOfSequence, tail);
    ReadRowsUnfold(src, |vs|);
  }

  lemma ReadRowsNextRow(rows: seq<seq<int>>, tail: seq<Token>)
    requires |rows| > 1
    ensures var n := |rows[0]|;
      ReadRows(Encode(rows) + tail, n) ==
        ([rows[0]] + ReadRows(Encode(rows[1..]) + tail, n).0, ReadRows(Encode(rows[1..]) + tail, n).1)
  {
    var vs := rows[0];
    var rest := Encode(rows[1..]) + tail;
    var src := Encode(rows) + tail;
    assert src == Fields(vs) + ([Marker(EndOfInstance)] + rest);
    ReadRowOf(vs, EndOfInstance, rest);
    ReadRowsUnfold(src, |vs|);
    assert src[|vs| + 1..] == rest;
  }

  /** The whole stream of a writer reads back as its rows, cleanly. */
  lemma ReadAllOfEncode(rows: seq<seq<int>>, n: nat)
    requires rows != [] && Rectangular(rows, n)
    ensures ReadRows(Encode(rows), n) == (rows, false)
  {
    assert Encode(rows) + [] == Encode(rows);
    ReadRowsOfEncode(rows, n, []);
  }

  /** A stream cut short anywhere inside a row's members is an error, not
      a clean end. */
  lemma TruncatedRowFails(vs: seq<int>, k: nat)
    requires k < |vs|
    ensures ReadRow(Fields(vs)[..k], |vs|).outcome == Failed
  {
    var src := Fields(vs)[..k];
    FieldRunAll(src, k);
  }

  /** A row followed by an item that is not an end marker is an error. */
  lemma BadMarkerFails(vs: seq<int>, t: Token, tail: seq<Token>)
    requires t.Field? || !(IsEndOfInstance(t.b) || IsEndOfSequence(t.b))
    ensures ReadRow(Fields(vs) + ([t] + tail), |vs|).outcome == Failed
  {
    var rest := [t] + tail;
    var src := Fields(vs) + rest;
    RowPrefix(vs, rest);
    assert src[|vs|] == t;
  }

  /** Where a reader's loop stands: while more rows follow, the rows read
      so far and those still to read make up `expected` and no error has
      been flagged; after the last call its rows are all of `expected`
      and the error flag is `expected`'s. */
  ghost predicate Reading(expected: (seq<seq<int>>, bool), rows: seq<seq<int>>, rest: seq<Token>,
                          more: bool, err: bool, err0: bool, n: nat)
  {
    (more ==> err == err0 && expected.0 == rows + ReadRows(rest, n).0 && expected.1 == ReadRows(rest, n).1) &&
    (!more ==> rows == expected.0 && err == (err0 || expected.1))
  }

  /** One `deserialize` call keeps the reader's loop on track. */
  lemma ReadingStep(expected: (seq<seq<int>>, bool), rows: seq<seq<int>>, rest: seq<Token>,
                    more: bool, err: bool, err0: bool, n: nat,
                    more': bool, rest': seq<Token>, row: seq<int>, err': bool)
    requires Reading(expected, rows, rest, more, err, err0, n) && more
    requires var r := ReadRow(rest, n);
      more' == (r.outcome == More) && rest' == rest[r.used..] && row == r.values &&
      err' == (err || r.outcome == Failed)
    ensures Reading(expected, rows + [row], rest', more', err', err0, n) == true
    ensures more' ==> |rest'| < |rest|
  {
    ReadRowsUnfold(rest, n);
    assert rows + ([row] + ReadRows(rest', n).0) == (rows + [row]) + ReadRows(rest', n).0;
  }

  /** A Sequence.  `row` holds the values of the members as the last
      `deserialize` left them. */
  class Sequence {
    var name: string
    var vars: seq<Var>
    var level: int
    var seqReadError: bool
    var row: seq<int>
    var read: bool
    var send: bool

    /** An empty top-level Sequence. */
    constructor (n: string)
      ensures name == n && vars == [] && level == 0 && !seqReadError && row == []
      ensures !read && !send
    {
      name, vars, level, seqReadError, row, read, send := n, [], 0, false, [], false, false;
    }

    /** `add_var`: appends to this Sequence only; a nested Sequence's
        members are added through that Sequence, so names need not be
        unique across levels. */
    method AddVar(v: Var)
      modifies this
      ensures vars == old(vars) + [v]
      ensures Width() == old(Width()) + Variables.Width(v)
      ensures name == old(name) && level == old(level) && seqReadError == old(seqReadError)
      ensures row == old(row) && read == old(read) && send == old(send)
    {
      WidthSumAppend(vars, v);
      vars := vars + [v];
    }

    /** `length()` of the base class: the number of rows is unknown. */
    function Length(): (n: int)
      ensures n == -1
    {
      -1
    }

    /** `set_level`. */
    method SetLevel(lvl: int)
      requires -0x8000_0000 <= lvl < 0x8000_0000
      modifies this
      ensures level == lvl
      ensures ReadLevel() == if lvl >= 0 then lvl else lvl + 0x1_0000_0000
      ensures name == old(name) && vars == old(vars) && seqReadError == old(seqReadError)
      ensures row == old(row) && read == old(read) && send == old(send)
    {
      level := lvl;
    }

    /** `read_level()`: the level as the `unsigned int` the header
        declares. */
    function ReadLevel(): (l: nat)
      reads this
      ensures l < 0x1_0000_0000
      ensures 0 <= level < 0x1_0000_0000 ==> l == level
    {
      level % 0x1_0000_0000
    }

    /** `deserialize`: reads one row from the front of `src` and returns
        what is left.  Returns true while more rows follow; false after
        the last row or on an error, and then `seq_read_error` tells the
        two apart. */
    method Deserialize(src: seq<Token>) returns (more: bool, rest: seq<Token>)
      modifies this
      ensures var r := ReadRow(src, |vars|);
        more == (r.outcome == More) && rest == src[r.used..] && row == r.values &&
        seqReadError == (old(seqReadError) || r.outcome == Failed)
      ensures name == old(name) && vars == old(vars) && level == old(level)
      ensures read == old(read) && send == old(send)
    {
      var n := |vars|;
      var vals: seq<int> := [];
      var k := 0;
      while k < n && k < |src| && src[k].Field?
        invariant k <= n && k <= |src|
        invariant FieldRun(src, n) == k + FieldRun(src[k..], n - k)
        invariant vals == FieldValues(src, k)
      {
        assert src[k..][1..] == src[k + 1..];
        vals := vals + [src[k].value];
        k := k + 1;
      }
      row := vals;
      if k < n {
        seqReadError := true;
        return false, src[k..];
      }
      if n == |src| {
        seqReadError := true;
        return false, src[n..];
      }
      var t := src[n];
      rest := src[n + 1..];
      if t.Field? {
        seqReadError := true;
        more := false;
      } else if IsEndOfInstance(t.b) {
        more := true;
      } else if IsEndOfSequence(t.b) {
        more := false;
      } else {
        seqReadError := true;
        more := false;
      }
    }

    /** `seq_read_error()`. */
    function SeqReadError(): (e: bool)
      reads this
      ensures e == seqReadError
    {
      seqReadError
    }

    /** A reader's loop: `deserialize` until it returns false, collecting
        the rows. */
    method ReadAll(src: seq<Token>) returns (rows: seq<seq<int>>)
      modifies this
      ensures rows == ReadRows(src, |vars|).0
      ensures seqReadError == (old(seqReadError) || ReadRows(src, |vars|).1)
      ensures name == old(name) && vars == old(vars) && level == old(level)
    {
      ghost var expected := ReadRows(src, |vars|);
      ghost var err0 := seqReadError;
      var more, rest := Deserialize(src);
      rows := [row];
      ReadingStep(expected, [], src, true, err0, err0, |vars|, more, rest, row, seqReadError);
      while more
        invariant name == old(name) && vars == old(vars) && level == old(level)
        // compared with `true` so that the state is checked as one fact
        invariant Reading(expected, rows, rest, more, seqReadError, err0, |vars|) == true
        decreases |rest| + (if more then 1 else 0)
      {
        ghost var before, rows0, err := rest, rows, seqReadError;
        more, rest := Deserialize(rest);
        rows := rows + [row];
        ReadingStep(expected, rows0, before, true, err, err0, |vars|, more, rest, row, seqReadError);
      }
    }

    /** `set_send_p`: the flag of the Sequence and of every member, at
        every depth of nesting. */
    method SetSendP(state: bool)
      modifies this
      ensures vars == AllWithSend(old(vars), state) && send == state
      ensures AllSendIn(vars, state)
      ensures name == old(name) && level == old(level) && seqReadError == old(seqReadError)
      ensures row == old(row) && read == old(read)
    {
      var vs := vars;
      var k := 0;
      while k < |vs|
        invariant k <= |vs| == |vars|
        invariant forall j :: 0 <= j < k ==> vs[j] == WithSend(vars[j], state)
        invariant forall j :: k <= j < |vs| ==> vs[j] == vars[j]
      {
        vs := vs[k := WithSend(vs[k], state)];
        k := k + 1;
      }
      AllWithSendMatches(vars, vs, state);
      vars, send := vs, state;
      WithSendReachesAllIn(old(vars), state);
    }

    /** `set_read_p`, in the same way. */
    method SetReadP(state: bool)
      modifies this
      ensures vars == AllWithRead(old(vars), state) && read == state
      ensures AllReadIn(vars, state)
      ensures name == old(name) && level == old(level) && seqReadError == old(seqReadError)
      ensures row == old(row) && send == old(send)
    {
      var vs := vars;
      var k := 0;
      while k < |vs|
        invariant k <= |vs| == |vars|
        invariant forall j :: 0 <= j < k ==> vs[j] == WithRead(vars[j], state)
        invariant forall j :: k <= j < |vs| ==> vs[j] == vars[j]
      {
        vs := vs[k := WithRead(vs[k], state)];
        k := k + 1;
      }
      AllWithReadMatches(vars, vs, state);
      vars, read := vs, state;
      WithReadReachesAllIn(old(vars), state);
    }

    /** `width()`: the width of one row. */
    function Width(): (w: int)
      reads this
      ensures w == WidthSum(vars)
      ensures vars == [] ==> w == 0
    {
      WidthSum(vars)
    }

    /** `var(name)`. */
    function Var(n: string): (r: Option<Var>)
      reads this
      ensures '.' !in n ==> (r.Some? <==> exists i :: 0 <= i < |vars| && vars[i].name == n)
      ensures '.' !in n && r.Some? ==> r.value in vars && r.value.name == n
    {
      Lookup(vars, n)
    }

    /** `first_var()`: the first column of the row, not the first row. */
    function FirstVar(): (p: Pix)
      reads this
      ensures p.Some? <==> vars != []
    {
      First(vars)
    }

    /** `next_var(p)`: the next column. */
    method NextVar(p: Pix) returns (q: Pix)
      ensures q == Next(vars, p)
    {
      q := Next(vars, p);
    }

    /** `var(Pix)`. */
    function VarAt(p: Pix): (r: Option<Var>)
      reads this
      ensures r.Some? <==> p.Some? && p.value < |vars|
      ensures r.Some? ==> r.value == vars[p.value]
    {
      At(vars, p)
    }
  }
}
