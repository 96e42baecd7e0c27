# libdap core in Dafny

This project models the in-memory core of libdap, the C++ library behind the
Data Access Protocol (DAP) servers and clients. It covers seven parts:

- **The constraint evaluator.** Its clause list is append-only and is
  evaluated as the AND of the clauses. Its function registry answers the
  first match for a name.
- **The dataset descriptor (DDS).** An ordered table of named variables,
  with append, lookup, delete and semantic checking.
- **Structure.** An ordered list of members, looked up by name (with dotted
  paths) or by cursor. Its send/read flags reach every member, and its width
  is the sum of its members' widths.
- **Sequence.** A Structure-like member list that describes one row. It has
  a level number and a row-at-a-time read protocol with end-of-instance and
  end-of-sequence markers.
- **Array dimension bookkeeping.** Appended dimensions, constraints
  (start, stride, stop), and the length and width derived from them.
- **The UInt64 scalar.** Value storage, buffer conversions, copying, and its
  relational comparison against operands of other kinds.
- **The escaping routines.** Percent-escaping, XML entities, attribute
  escaping and error-message quoting.

Variables are values (`Variables.Var`). A Structure's `add_var` stores a
copy, which is why `tests/structT.cc:51-57` may delete the original; the
dataset's `add_var` stores the caller's pointer, an aliasing the model does
not keep (see "## Left out"). The
objects whose fields the library updates are classes:

- `DDS`, `Structure`, `Sequence`, `Array`, `UInt64` and
  `ConstraintEvaluator`;
- their loops, where the library loops, are methods with invariants,
  proved against specification functions.

The unit tests for Array and Structure are replayed as methods:

- `ArrayTest.ArrayT` (`array_test.dfy`);
- `StructTest.StructT` (`struct_test.dfy`).

Each one's postcondition is what that test asserts. Strings are
`seq<char>`; 8-bit strings are `Str8`.

The following are parameters of the model:

- what the abstract `read()` of a variable returns;
- the truth value of a clause;
- the result of a function clause;
- the own check of a nested variable;
- the functions registered at start-up.

## Model

| member | source | states |
|---|---|---|
| Escaping.Hexstring | escaping.cc:79-87 | exactly two lower-case hex digits whose value is the byte |
| Escaping.HexPrefixValue | escaping.cc:92-96 | the code `istringstream >> hex` and the `char` cast give: white space skipped, an optional sign, the leading hex digits, modulo 256; 0, the model's choice, for an argument that is empty or all blank, and 0, as the failed extraction stores, when a sign or other non-digit is reached first |
| Escaping.Unhexstring | escaping.cc:89-99 | the character with that code; empty when the code is 0 |
| Escaping.UnhexstringSignAndSpace | escaping.cc:89-99 | `-1` gives the byte 0xff, ` 5` and `+5` give 5, a sign without digits gives nothing |
| Escaping.UnhexstringOfHexstring | escaping.cc:79-99 | `unhexstring(hexstring(c))` is the one-character string `c`, and empty for NUL |
| Escaping.Octstring | escaping.cc:101-109 | exactly three octal digits whose value is the byte |
| Escaping.FindFirstOf | escaping.cc:213 | the first position at or after `from` holding a character of the set, `npos` when there is none |
| Escaping.FindFirstNotOf | escaping.cc:156 | the first position at or after `from` holding a character outside the set |
| Escaping.Find | escaping.cc:267 | the first occurrence of a non-empty needle at or after `from` |
| Escaping.EscapeNotIn | escaping.cc:156-159 | the find_first_not_of/replace loop rewrites every character outside `keep` by the given escape and keeps the others |
| Escaping.ReplaceChar | escaping.cc:324-327 | the find/replace loop that resumes after the replacement replaces every occurrence of the character exactly once |
| WwwEscaping.Id2Www | escaping.cc:151-162 | each character in `allowable` is kept; every other becomes `%` and its two hex digits |
| WwwEscaping.DefaultAllowableHasHexDigits | escaping.cc:148 | the default `allowable` holds every lower-case hex digit, so the rescan of a written escape terminates |
| WwwEscaping.PercentNotAllowable | escaping.cc:148 | `%` is not in the default `allowable` |
| WwwEscaping.Id2WwwKeepsAllowable | escaping.cc:151-162 | a string made only of allowable characters is unchanged |
| WwwEscaping.Id2WwwChars | escaping.cc:151-162 | every output character is allowable, `%` or a hex digit |
| WwwEscaping.Www2IdAsWritten | escaping.cc:208-222 | the loop as written: the search restarts at the character just decoded |
| WwwEscaping.Www2IdAsWrittenDecodesTwice | escaping.cc:208-222 | as written, `%2541` decodes to `A` although it is the escape of `%41` |
| WwwEscaping.Www2Id | escaping.cc:208-222 | with the decoded character skipped: the corrected decoding `WwwDecode` |
| WwwEscaping.WwwDecodeNoEscape | escaping.cc:208-222 | a string without escape characters is unchanged |
| WwwEscaping.WwwDecodeKeepsExcept | escaping.cc:214-216 | an occurrence of `except` is copied and never decoded |
| WwwEscaping.Www2IdSignedEscape | escaping.cc:208-222 | `%-1` decodes to the byte 0xff, as written and corrected |
| WwwEscaping.Www2IdDecodesOnce | escaping.cc:208-222 | the corrected decoding turns `%2541` into `%41` |
| WwwEscaping.Www2IdOfId2Www | escaping.cc:151-222 | decoding undoes `id2www` for every NUL-free string when `%` is not allowable |
| WwwEscaping.Id2WwwOfPercent41 | escaping.cc:151-162 | `id2www("%41")` is `%2541` |
| WwwEscaping.Underscored | escaping.cc:294-302 | the output of `esc2underscore` contains no `%` and is no longer than the input |
| WwwEscaping.UnderscoredNoPercent | escaping.cc:294-302 | a string without `%` is unchanged |
| WwwEscaping.Esc2Underscore | escaping.cc:294-302 | the loop computes `Underscored`: each `%` and the two characters after it become one `_` |
| WwwEscaping.UnderscoredOfId2Www | escaping.cc:294-302 | after `id2www`, `esc2underscore` turns exactly the escaped characters into `_` |
| XmlEscaping.Entity | escaping.cc:224-236 | the entity of one of `> < & ' "`; any other character throws InternalErr |
| XmlEscaping.EntityInjective | escaping.cc:224-236 | distinct special characters have distinct entities |
| XmlEscaping.DefaultNotAllowedIsSpecial | escaping.cc:241-242 | the default `not_allowed` set is exactly the five special characters |
| XmlEscaping.DefaultXmlEscapable | escaping.cc:241-255 | with the default set, `id2xml` never throws |
| XmlEscaping.Id2Xml | escaping.cc:245-255 | succeeds iff every character it reaches has an entity; then each `not_allowed` character becomes its entity; otherwise InternalErr |
| XmlEscaping.ReplaceAll | escaping.cc:267-284 | the find/replace loop that restarts at the replacement computes `Rescan` |
| XmlEscaping.Xml2IdAsWritten | escaping.cc:263-287 | the five loops in the order written, `&amp;` third |
| XmlEscaping.XmlRoundTripAsWritten | escaping.cc:245-287 | as written, `xml2id(id2xml(s)) == s` when `s` holds no `&` |
| XmlEscaping.XmlRoundTripAsWrittenFails | escaping.cc:263-287 | as written, `xml2id(id2xml("&quot;"))` is `"`, not `&quot;` |
| XmlEscaping.ReplaceEach | escaping.cc:275-276 | the loop resuming after the replacement replaces each occurrence once |
| XmlEscaping.Xml2Id | escaping.cc:263-287 | with `&amp;` decoded last and once: computes `XmlDecode` |
| XmlEscaping.XmlRoundTrip | escaping.cc:245-287 | `XmlDecode(id2xml(s)) == s` for every string |
| AttrEscaping.Escattr | escaping.cc:308-337 | the three loops as written: octal escape of unprintables, doubled backslashes, escaped quotes |
| AttrEscaping.EscattrPrintable | escaping.cc:308-337 | every character of the output is in the printable set |
| AttrEscaping.EscattrKeepsPlain | escaping.cc:308-337 | a printable string without `\` and `"` is unchanged |
| AttrEscaping.EscattrTabCollides | escaping.cc:308-337 | as written, a tab and the four characters `\011` escape to the same output |
| AttrEscaping.EscattrCorrected | escaping.cc:308-337 | with the backslash loop first, each character gets its own escape |
| AttrEscaping.AttrUnescapeOfEscape | escaping.cc:308-337 | the corrected escaping is undone by octal/backslash unescaping for every string |
| ErrorMessages.Quoted | escaping.cc:391-395 | the message with enclosing quotes added where missing; it begins and ends with `"` |
| ErrorMessages.MungeErrorMessage | escaping.cc:388-404 | the loop computes `Munged`: the quoted message with every unescaped inner quote escaped |
| ErrorMessages.MungedQuoted | escaping.cc:388-404 | the output begins and ends with `"` |
| ErrorMessages.MungedEscapes | escaping.cc:397-401 | every inner quote of the output has a backslash before it |
| ErrorMessages.MungedPlain | escaping.cc:388-404 | a message without quotes gets exactly the two enclosing quotes |
| ErrorMessages.MungedKeepsWellQuoted | escaping.cc:388-404 | a quoted message whose inner quotes are escaped is unchanged |
| ErrorMessages.MungedIdempotent | escaping.cc:388-404 | munging twice is munging once |
| Evaluator.ConstraintEvaluator.constructor | ConstraintEvaluator.cc:46-49 | no clauses, no constants, the registry holding the start-up functions |
| Evaluator.ConstraintEvaluator.AppendRelational | ConstraintEvaluator.cc:106-112 | one relational clause at the end; earlier clauses unchanged |
| Evaluator.ConstraintEvaluator.AppendBoolCall | ConstraintEvaluator.cc:123-129 | one boolean-function clause at the end; earlier clauses unchanged |
| Evaluator.ConstraintEvaluator.AppendBtpCall | ConstraintEvaluator.cc:140-146 | one value-function clause at the end; earlier clauses unchanged |
| Evaluator.ConstraintEvaluator.AppendConstant | ConstraintEvaluator.cc:155-159 | the constant at the end of the constant pool |
| Evaluator.ConstraintEvaluator.AddFunction | ConstraintEvaluator.cc:175-196 | one entry at the end of the registry; a search still finds an earlier entry, else the new function |
| Evaluator.Entry | ConstraintEvaluator.cc:175-196 | the new entry carries the function in the slot of its kind and null in the others |
| Evaluator.RegisteredAppend | ConstraintEvaluator.cc:175-245 | appending an entry never shadows an earlier match |
| Evaluator.ConstraintEvaluator.FindFunction | ConstraintEvaluator.cc:199-245 | found iff some entry has the name and a non-null function of the kind; that function comes from the first such entry; on failure `*f` is null if some entry had the name, else untouched; false on an empty registry |
| Evaluator.RegisteredFirst | ConstraintEvaluator.cc:199-245 | the function found is that of the first entry providing it, and none is found iff no entry provides it |
| Evaluator.ConstraintEvaluator.ClauseValue | ConstraintEvaluator.cc:83-92 | InternalErr when there are no clauses; otherwise the value of the indicated clause |
| Evaluator.ConstraintEvaluator.FunctionalExpression | ConstraintEvaluator.cc:250-258 | false on an empty list; otherwise whether the first clause is a value-function clause |
| Evaluator.ConstraintEvaluator.EvalFunction | ConstraintEvaluator.cc:261-274 | InternalErr unless there is exactly one clause; the function's result when its evaluation succeeds, null otherwise |
| Evaluator.ConstraintEvaluator.BooleanExpression | ConstraintEvaluator.cc:277-290 | false on an empty list; otherwise true iff every clause is boolean |
| Evaluator.ConstraintEvaluator.EvalSelection | ConstraintEvaluator.cc:294-319 | the loop computes `Selection`: true when empty, the AND of the clause values in order, stopping at the first false, InternalErr on a non-boolean clause reached first |
| Evaluator.SelectionTrue | ConstraintEvaluator.cc:294-319 | the selection is true iff every clause is boolean and true |
| Evaluator.SelectionFalse | ConstraintEvaluator.cc:308-316 | the selection is false iff it reaches a false boolean clause after passing every clause before it |
| Evaluator.SelectionError | ConstraintEvaluator.cc:309-314 | the selection throws iff it reaches a non-boolean clause after passing every clause before it; the error is InternalErr |
| Evaluator.SelectionStopsAtFalse | ConstraintEvaluator.cc:309 | nothing after the first false clause is inspected, a non-boolean clause included |
| Dataset.DDS.constructor | DDS.cc:51-53 | the dataset has the given name and no variables |
| Dataset.DDS.GetDatasetName | DDS.cc:55-59 | the stored name; `SetDatasetName` states that it is the last name set |
| Dataset.DDS.SetDatasetName | DDS.cc:55-65 | `get_dataset_name` then returns the name set; the variables are unchanged |
| Dataset.DDS.AddVar | DDS.cc:67-71 | the variable goes at the end; a new name finds it, and an existing name still finds its first variable |
| Dataset.DDS.FindVar | DDS.cc:87-95 | the first variable with the name, or null when no variable has it |
| Dataset.DDS.DelVar | DDS.cc:73-85 | the loop that tracks the previous cursor removes the first variable with the name, `RemoveFirst` |
| Dataset.DelAfter | DDS.cc:80 | `del_after(pp)` removes the element after `pp`, or the head for a null `pp` |
| Dataset.RemoveFirstShape | DDS.cc:73-85 | exactly one variable is removed when one has the name; the others keep their order; without such a variable nothing changes |
| Dataset.DelVarUndoesAddVar | DDS.cc:67-85 | adding a variable with a new name and deleting it restores the table |
| Dataset.DelVarRemovesName | DDS.cc:73-85 | with unique names, the deleted name is no longer found and the names stay unique |
| Dataset.DDS.FirstVar | DDS.cc:97-101 | null on an empty table, otherwise the cursor of the first variable |
| Dataset.DDS.NextVar | DDS.cc:103-108 | on an empty table the cursor is unchanged; otherwise it moves to the next variable or null |
| Dataset.DDS.VarAt | DDS.cc:110-115 | the variable at a valid cursor, nothing otherwise |
| Dataset.DDS.CheckSemantics | DDS.cc:159-177 | true iff the dataset has a name, the names are unique and, with `all`, every variable passes its own check |
| Variables.Names | Structure.h:179-183 | the names of the members, in list order |
| Variables.IndexOf | DDS.cc:87-95 | the position of the first variable with the name, or none |
| Variables.NamedAppend | DDS.cc:67-71 | after an append, an existing name finds the same variable, and the appended one is found only when its name is new |
| Variables.LookupDirect | Structure.h:237-238 | `var(name)` finds a direct member by its own name |
| Variables.LookupDotted | Structure.h:194-198 | `outer.inner` reaches the member `inner` of the constructor member `outer` |
| Variables.LookupMissing | Structure.h:237-238 | a plain name that no member has finds nothing |
| Variables.First | Structure.h:243-244 | null on an empty list, otherwise position 0 |
| Variables.Next | Structure.h:246-248 | the next position, or null after the last |
| Variables.At | Structure.h:250-251 | the element at a cursor, nothing at null or past the end |
| Variables.WalkVisitsAll | Structure.h:179-183 | `first_var` then `next_var` visits every member once, in list order |
| Variables.ScalarWidth | UInt64.cc:109-113 | each scalar's width is positive; 2 for 16-bit kinds, 8 for 64-bit ones |
| Variables.WidthSumAppend | Structure.h:221 | the width of a member list grows by the width of an appended member |
| Variables.WithSend | Structure.h:190-192 | the flag of a variable and of all its members, at every depth, is set; names and kinds unchanged |
| Variables.WithRead | Structure.h:190-192 | the same for the read flag |
| Variables.WithSendReachesAll | Structure.h:190-192 | after `set_send_p(state)` every variable inside carries `state` |
| Variables.WithReadReachesAll | Structure.h:190-192 | after `set_read_p(state)` every variable inside carries `state` |
| Structures.Structure.constructor | Structure.h:211 | an empty Structure with the given name |
| Structures.Structure.AddVar | Structure.h:240-241 | one member at the end; the others unchanged; one more element; width grows by the member's width |
| Structures.Structure.SetSendP | Structure.h:190-192 | the flag is set on the Structure and on every member at every depth; names unchanged |
| Structures.Structure.SetReadP | Structure.h:190-192 | the read flag likewise |
| Structures.Structure.Val2Buf | Structure.h:232-233 | stores nothing and returns the Structure's width |
| Structures.Structure.Buf2Val | Structure.h:234-235 | writes nothing and returns the Structure's width |
| Structures.Structure.ElementCount | tests/structT.cc:113-114 | the number of direct members only |
| Structures.Structure.FirstVar | Structure.h:243-244 | null iff there are no members |
| Structures.Structure.NextVar | Structure.h:246-248 | the cursor moves to the next member, or null after the last |
| Structures.Structure.VarAt | Structure.h:250-251 | the member at a cursor |
| Structures.Structure.Width | Structure.h:221 | the sum of the members' widths, 0 with no members; `Variables.WidthSumAppend` and `AddVar` state how each member adds its width |
| Structures.Structure.Var | Structure.h:237-238 | for a name without a dot: found iff a direct member has that name, and what is found is a member with that name; `Variables.LookupDirect`, `Variables.LookupDotted` and `Variables.LookupMissing` state the first match, the dotted path and the miss |
| Structures.Structure.AsVar | Structure.h:221 | the Structure as a member value, with the Structure's width |
| Sequences.MarkersDistinct | Sequence.h:299-303 | no marker is both end of instance and end of sequence |
| Sequences.Sequence.constructor | Sequence.h:260-266 | a new Sequence is level 0, with no members and no read error |
| Sequences.Sequence.AddVar | Sequence.h:380-384 | one member at the end of this Sequence only |
| Sequences.Sequence.Length | Sequence.h:318-333 | the base `length()` is -1 |
| Sequences.Sequence.SetLevel | Sequence.h:335-338 | `read_level()` then returns the level set, as an `unsigned int` |
| Sequences.Sequence.ReadLevel | Sequence.h:337-338 | the level below 2^32, equal to the level when it is not negative |
| Sequences.Sequence.Deserialize | Sequence.h:343-367 | reads one row: true iff an end-of-instance marker follows it; false at end of sequence or on error; `seq_read_error` becomes true iff a member or the marker could not be read |
| Sequences.ReadRow | Sequence.h:343-354 | the row read at the front of a stream, with what follows it |
| Sequences.ReadRowOf | Sequence.h:343-354 | a row followed by a marker reads back as that row, with the marker's meaning |
| Sequences.TruncatedRowFails | Sequence.h:356-367 | a stream cut short inside a row is a read error |
| Sequences.BadMarkerFails | Sequence.h:356-367 | a row followed by anything but an end marker is a read error |
| Sequences.Sequence.ReadAll | Sequence.h:268-273 | calling `deserialize` until it returns false yields `ReadRows`, and the error flag is that of `ReadRows` |
| Sequences.ReadingStep | Sequence.h:343-367 | one `deserialize` call moves the reader's loop one row forward in `ReadRows` |
| Sequences.ReadRowsOfEncode | Sequence.h:343-367 | a stream of rows, each followed by end-of-instance and the last by end-of-sequence, reads back as exactly those rows, without error |
| Sequences.ReadAllOfEncode | Sequence.h:343-367 | the same for a stream that ends after the last marker |
| Sequences.Sequence.SetSendP | Sequence.h:313 | the flag is set on the Sequence and on every member at every depth |
| Sequences.Sequence.SetReadP | Sequence.h:314 | the read flag likewise |
| Sequences.Sequence.FirstVar | Sequence.h:386-390 | null iff the row has no columns |
| Sequences.Sequence.NextVar | Sequence.h:391-393 | the next column of the row, not the next row |
| Sequences.Sequence.VarAt | Sequence.h:395-396 | the column at a cursor |
| Sequences.Sequence.Width | Sequence.h:316 | the width of one row: the sum of the columns' widths, 0 with no columns; `Variables.WidthSumAppend` states how each column adds its width |
| Sequences.Sequence.Var | Sequence.h:378 | for a name without a dot: found iff a column has that name, and what is found is a column with that name; `Variables.LookupDirect`, `Variables.LookupDotted` and `Variables.LookupMissing` give the rest |
| Sequences.Sequence.SeqReadError | Sequence.h:356-367 | the error flag; `Deserialize` states when it becomes true |
| Arrays.FullDimLength | tests/arrayT.cc:114-171 | a dimension at full extent contributes its size |
| Arrays.ConstrainedDimLength | tests/arrayT.cc:176-187 | a fitting constraint contributes `(stop - start) / stride + 1`, between 1 and the size |
| Arrays.ConstrainLength | tests/arrayT.cc:176-187 | constraining one dimension changes only that dimension's factor of the length |
| Arrays.AppendDimLength | tests/arrayT.cc:69-102 | each appended dimension multiplies the length by its size; the first replaces the -1 |
| Arrays.ResetLength | tests/arrayT.cc:189-192 | without constraints the length is the product of the sizes |
| Arrays.Reset | tests/arrayT.cc:189-192 | every dimension at full extent, the names and sizes kept |
| Arrays.ResetForgetsConstraint | tests/arrayT.cc:176-192 | resetting undoes any constraint |
| Arrays.Array.constructor | tests/arrayT.cc:48-51 | no element type and no dimensions |
| Arrays.Array.AddVar | tests/arrayT.cc:53-54 | the element template is set; a named template renames the Array, an unnamed one takes the Array's name |
| Arrays.Array.AppendDim | tests/arrayT.cc:69-102 | a new last dimension at full extent; the length is its size, or multiplied by it |
| Arrays.Array.AddConstraint | tests/arrayT.cc:176-187 | a fitting constraint sets that dimension's start, stride and stop only; one that does not fit is a malformed expression and changes nothing |
| Arrays.Array.ResetConstraint | tests/arrayT.cc:189-192 | every dimension back to full extent; the length is again the product of the sizes |
| Arrays.Array.Dimensions | tests/arrayT.cc:173-174 | the number of appended dimensions |
| Arrays.Array.FirstDim | tests/arrayT.cc:129 | null iff there are no dimensions |
| Arrays.Array.NextDim | tests/arrayT.cc:130 | the next dimension, or null after the last |
| Arrays.Array.DimAt | tests/arrayT.cc:132-138 | the dimension at a cursor, with its name, size, start, stop and stride |
| Arrays.Array.Length | tests/arrayT.cc:50-192 | -1 without dimensions, the product of the constrained lengths otherwise, and one dimension's length when there is one; `Arrays.AppendDimLength`, `Arrays.ConstrainLength` and `Arrays.ResetLength` state how appending, constraining and resetting change it |
| Arrays.Array.AsVar | tests/structT.cc:59-63 | the Array as a member value under its own name |
| Arrays.Array.Width | tests/arrayT.cc:59-112 | the length times the element's width; InternalErr without an element type |
| ArrayTest.ArrayT | tests/arrayT.cc:46-196 | lengths -1, -1, 4, 12, 24, then 12, 8 and 24 after the constraints and the reset; widths twice the length; the walk lists dim1..dim3 at full extent; 3 dimensions |
| ArrayTest.WalkDims | tests/arrayT.cc:126-148 | the cursor walk visits the dimensions in append order |
| StructTest.StructT | tests/structT.cc:47-123 | `name_str` is found; the members are listed as `name_int16`, `name_str`, `array_int`; 3 elements; width `sizeof(string) + 2 + 24 * 2` |
| StructTest.Build | tests/structT.cc:49-63 | successive `add_var` calls give the three members, the Array under its element's name |
| StructTest.WalkNames | tests/structT.cc:80-87 | the cursor walk yields the member names in list order |
| UInt64Scalar.UInt64.constructor | UInt64.cc:70-72 | a variable with the given name, not read |
| UInt64Scalar.UInt64.Copy | UInt64.cc:85-88 | the copy has the name, flag and value of the original |
| UInt64Scalar.UInt64.Assign | UInt64.cc:96-107 | assignment copies the value; assigning a variable to itself changes nothing |
| UInt64Scalar.UInt64.Width | UInt64.cc:109-113 | always 8, the width of `dods_uint64` |
| UInt64Scalar.UInt64.SetValue | UInt64.cc:177-184 | `value()` then returns the value set; the variable is read; returns true |
| UInt64Scalar.UInt64.Val2Buf | UInt64.cc:146-155 | InternalErr on a null pointer, nothing stored; otherwise the value is stored and the width returned |
| UInt64Scalar.UInt64.Buf2Val | UInt64.cc:157-169 | InternalErr on a null pointer; otherwise the stored value is written, into new storage when the inner pointer is null, and the width returned |
| UInt64Scalar.UInt64.Value | UInt64.cc:171-175 | the stored value; `SetValue` and `ValueRoundTrip` state which value that is after `set_value` and after `val2buf`/`buf2val` |
| UInt64Scalar.ValueRoundTrip | UInt64.cc:146-169 | `val2buf` followed by `buf2val` hands back the value |
| UInt64Scalar.ReadCheck | UInt64.cc:208-214 | InternalErr iff this value is unread and its `read()` fails, or the other operand is null, or it is unread and its `read()` fails |
| UInt64Scalar.UInt64.OpsAsWritten | UInt64.cc:205-247 | as written: read errors as above; an unread operand compared by the value its `read()` loads; false for non-numeric kinds; a numeric comparison for integer kinds, a negative Int64 taken as its value plus 2^64 |
| UInt64Scalar.UInt64.OpsCall | UInt64.cc:205-247 | the call returns `OpsAsWritten`; an unread variable whose `read()` succeeds keeps the loaded value and is marked read, even when the call then throws |
| UInt64Scalar.OpsComparesLoadedValue | UInt64.cc:209-228 | with 0 stored and 7 loaded by `read()`, the variable is greater than Int32(5) |
| UInt64Scalar.OpsInt64Counterexample | UInt64.cc:232-234 | as written, 5 > Int64(-1) is false while 5 > Int32(-1) is true |
| UInt64Scalar.UInt64OperandUnchanged | UInt64.cc:235-237 | a UInt64 operand read through the Int64 cast compares by its own value |
| UInt64Scalar.UInt64.Ops | UInt64.cc:205-247 | corrected: every integer kind compared as by `USCmp`, a negative operand counting as 0, both operands by their loaded values; non-numeric kinds false |
| UInt64Scalar.OpsAgreeOutsideNegativeInt64 | UInt64.cc:216-246 | the code as written and the corrected comparison differ only on negative Int64 operands |
| UInt64Scalar.Compare | UInt64.cc:218-243 | the regular-expression operator and unknown operators compare false |
| UInt64Scalar.AsInt64 | UInt64.cc:235-237 | the Int64 view of a UInt64 converts back to the same value |

## Left out

- Network I/O: XDR and DAP4 encoding of values (`serialize`/`deserialize`
  bytes, `UInt64.cc:115-143`) and the timeout hooks. The Sequence read
  protocol is modelled on a stream of tokens, one per value or marker.
- Dataset.DDS.AddVar: `add_var` stores the caller's pointer (`DDS.cc:70`)
  and `Dataset.DDS.FindVar` hands that pointer back, so a change made
  through it (`set_send_p`, say) changes the table's variable. The model
  stores values; that aliasing is not modelled.
- UInt64Scalar.UInt64.OpsCall: the second operand is a value, so the effect
  of its own `read()` on that variable (the loaded value, its read flag) is
  used for the comparison but not kept.
- Floating point: the Float32/Float64 branches of `UInt64::ops` give an
  abstract `floatResult`; `Float64.h` is not modelled.
- Printing: `print_val`, `print_decl`, `DDS::print`, `dump`.
- `unescattr`: it depends on the GNU `Regex` class. `AttrEscaping.AttrUnescape`
  is an independent reference decoder, not a model of it.
- Parsing: `ConstraintEvaluator::parse_constraint` and `DDS::parse` drive
  parsers that are not part of this model.
- `Clause::value`: the truth value of a clause is the parameter `value`, and
  a function clause's result is the parameter `call`.
- `Operators.h`, which holds `rops`, `Cmp` and `USCmp`, is not part of this
  model.
  - `rops` is modelled as the comparison named by the operator, false for
    the regular-expression operator and unknown codes.
  - `USCmp` is modelled as a comparison with the signed operand floored at
    zero (`dap_floor_zero`).
- `register_functions` (in `ce_functions.cc`, not part of this model): the
  start-up registry is the constructor's parameter.
- `ConstraintEvaluator.h`, which holds the registry entry `function`, is not
  part of this model.
  - A new entry is assumed to carry the function in its own kind's slot and
    null in the others.
- `Clause.cc` is not part of this model.
  - A relational or boolean-function clause is taken to be boolean.
  - A value-function clause is taken to be a value clause.
- `Array.cc` is not part of this model.
  - What `add_constraint` accepts (`0 <= start <= stop < size`,
    `stride >= 1`) is an assumption; every constraint in
    `tests/arrayT.cc:176-187` satisfies it.
  - The renaming of an Array by its template's name is an assumption
    drawn from `tests/structT.cc:59-77`, where the Array is listed under
    its element's name.
- `Structure.cc` and `Sequence.cc` are not part of this model.
  - The Sequence markers are modelled as two distinct constants.
  - Every row is followed by one marker: end of instance when another row
    follows, end of sequence after the last.
- util.cc is not part of this model. Its `unique`, used by
  `check_semantics`, is modelled as "no two top-level variables share a
  name".
- Dataset.DDS.CheckSemantics: the null-name test is modelled as the empty
  name, and the variables' own checks are the parameter `ok`.
- Dataset.DDS.VarAt: `var(Pix)` falls off its end without a return value
  when the table is empty or the cursor is null; that is modelled as
  nothing.
- Structures.Structure.Var: the `exact_match` flag of `var(name, exact)`
  is not modelled. Both calls in `tests/structT.cc:66-72` are one lookup.
- Nested Sequences: a member of a row is read as one value.
- An empty Sequence (no members) can still be read; a writer's stream
  (`Encode`) needs at least one row.
- Lengths and widths are unbounded integers; the `int` and `unsigned int`
  overflow of very large arrays is not modelled.
- Evaluator.ConstraintEvaluator.BooleanExpression: the code returns false on
  an empty list, and the model follows the code. A vacuous true would be
  the other reading.
- WwwEscaping.Id2Www: requires the lower-case hex digits to be allowable.
  Without that the loop may escape its own digits forever: `id2www("!", "")`
  turns `!` into `%21`, then the `2` into `%32`, and so on. The requires also
  excludes some allowable sets on which the loop does end, such as
  `id2www("ab", "ab")`. Both default sets (escaping.cc:148 and 171) meet it.
- Escaping.HexPrefixValue: for an argument that is empty or all white space
  the source reads its uninitialised `int val`, because the extraction stops
  before storing anything. In `www2id` that is a trailing `%` or a `%`
  followed by blanks, as in `www2id("50%")` and `www2id("5% ")`. The model
  takes 0 there.
- Arrays.Array.AppendDim: the dimension name is stored as given. The
  `www2id` decoding that escaping.cc:183-184 documents for `append_dim` is
  not modelled.
- Structures.Structure.Var: the name is compared as given. The `www2id`
  decoding of the name that escaping.cc:192 documents for `var(name)` is not
  modelled.
- Sequences.Sequence.Var: the name is compared as given, without the
  `www2id` decoding escaping.cc:192 documents.
- ErrorMessages.MungeErrorMessage: requires a message of at least one
  character other than a lone `"`. For shorter input the iterator
  arithmetic of the source is undefined.
- UInt64Scalar.UInt64.constructor: the stored value of a new UInt64 is
  uninitialised in the source and is left unspecified.
- `set_send_p`/`set_read_p` of an Array and the Array's serialisation are
  not modelled; an Array's flags are plain fields.

## Findings

| source | as written | input that shows it | evidently intended | confidence | as-written member | corrected member |
|---|---|---|---|---|---|---|
| escaping.cc:213-219 | after a replacement the search resumes at the decoded character, so a decoded `%` starts another escape | `www2id("%2541")` gives `A`, though `id2www("%41")` is `%2541` | each escape decoded once, so that `www2id(id2www(s)) == s` | not executed | WwwEscaping.Www2IdAsWrittenDecodesTwice | WwwEscaping.Www2IdOfId2Www |
| escaping.cc:275-284 | `&amp;` is decoded before `&apos;` and `&quot;`, so an `&` it produces starts an entity | `xml2id(id2xml("&quot;"))` gives `"` | `xml2id(id2xml(s)) == s` for every `s` | not executed | XmlEscaping.XmlRoundTripAsWrittenFails | XmlEscaping.XmlRoundTrip |
| escaping.cc:318-327 | backslashes are doubled after the octal escapes are written, so an escaped character and its escape text collide | a tab and the text `\011` both give `\\011` | an escaping that can be undone | not executed | AttrEscaping.EscattrTabCollides | AttrEscaping.AttrUnescapeOfEscape |
| UInt64.cc:232-234 | an Int64 operand is compared with `Cmp`, which converts a negative value to unsigned | `5 > Int64(-1)` is false, while `5 > Int32(-1)` is true | the sign-aware `USCmp`, as for Int16 and Int32 | not executed | UInt64Scalar.OpsInt64Counterexample | UInt64Scalar.UInt64.Ops |
