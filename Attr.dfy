/** Escaping of attribute values: escattr (escaping.cc:304-337). */
module AttrEscaping {
  import opened Escaping

  /** The characters escattr lets through (escaping.cc:310): the space, the
      letters, the digits and the ASCII punctuation. */
  const Printable: Str8 :=
    [' '] + CharRange('A', 26) + CharRange('a', 26) + CharRange('0', 10) + Punctuation

  const Punctuation: Str8 := "~`!@#$%^&*()_-+={[}]|\\:;<,>.?/'\""

  /** The backslash and the octal digits are printable, so the replacements
      of the first loop are not scanned again. */
  lemma PrintableHasEscapes()
    ensures '\\' in Printable && '"' in Printable
    ensures forall d :: 0 <= d < 8 ==> OctDigit(d) in Printable
    ensures forall c: Char8 :: '0' <= c <= '7' ==> c in Printable
  {
    assert Punctuation[21] == '\\' && Punctuation[31] == '"';
    assert Printable[63 + 21] == '\\' && Printable[63 + 31] == '"';
    forall d | 0 <= d < 8
      ensures OctDigit(d) in Printable
    {
      assert Printable[53 + d] == OctDigit(d);
    }
    forall c: Char8 | '0' <= c <= '7'
      ensures c in Printable
    {
      assert Printable[53 + (c as int - 48)] == c;
    }
  }

  // ---------------------------------------------------------------------
  // The three passes
  // ---------------------------------------------------------------------

  /** First pass: a character that is not printable becomes a backslash
      and its three octal digits. */
  function OctalIfUnprintable(c: Char8): Str8
  {
    if c in Printable then [c] else ['\\'] + Octstring(c as int)
  }

  const Backslash2: Str8 := ['\\', '\\']
  const BackslashQuote: Str8 := ['\\', '"']

  /** What escattr as written does to one character: the backslash that
      the first pass writes before the octal digits is doubled by the
      second pass like any other backslash. */
  function AttrEscapeAsWritten(c: Char8): Str8
  {
    if c == '\\' then Backslash2
    else if c == '"' then BackslashQuote
    else if c in Printable then [c]
    else Backslash2 + Octstring(c as int)
  }

  /** The first two passes, on one character. */
  function OctalThenDoubled(c: Char8): Str8
  {
    if c == '\\' then Backslash2
    else if c in Printable then [c]
    else Backslash2 + Octstring(c as int)
  }

  lemma OctalNoSpecial(c: Char8, x: Char8)
    requires x == '\\' || x == '"'
    ensures x !in Octstring(c as int)
  {
  }

  lemma FirstTwoPasses(c: Char8)
    ensures Expand(OctalIfUnprintable(c), Subst('\\', Backslash2)) == OctalThenDoubled(c)
  {
    var f := Subst('\\', Backslash2);
    if c !in Printable {
      var o := Octstring(c as int);
      PrintableHasEscapes();
      ExpandAppend(['\\'], o, f);
      OctalNoSpecial(c, '\\');
      ExpandFixed(o, f);
    }
  }

  lemma LastPass(c: Char8)
    ensures Expand(OctalThenDoubled(c), Subst('"', BackslashQuote)) == AttrEscapeAsWritten(c)
  {
    var f := Subst('"', BackslashQuote);
    if c == '\\' {
      assert Expand(Backslash2, f) == Backslash2;
    } else if c !in Printable {
      var o := Octstring(c as int);
      PrintableHasEscapes();
      ExpandAppend(Backslash2, o, f);
      assert Expand(Backslash2, f) == Backslash2;
      OctalNoSpecial(c, '"');
      ExpandFixed(o, f);
    }
  }

  /** The loop functions the first pass may use: the characters it writes
      from the replacement's first character on are printable. */
  lemma OctalPassFits()
    ensures forall c :: c in Printable ==> OctalIfUnprintable(c) == [c]
    ensures forall c, u :: c !in Printable && 0 <= u < |OctalIfUnprintable(c)| ==> OctalIfUnprintable(c)[u] in Printable
  {
    PrintableHasEscapes();
  }

  /** `escattr(s)`: the three loops in order, the first with the index left
      on the replacement (its backslash and digits are printable), the
      other two resuming after it. */
  method Escattr(input: Str8) returns (r: Str8)
    ensures r == Expand(input, AttrEscapeAsWritten)
  {
    OctalPassFits();
    var s1 := EscapeNotIn(input, Printable, OctalIfUnprintable, 0);
    var s2 := ReplaceChar(s1, '\\', Backslash2);
    r := ReplaceChar(s2, '"', BackslashQuote);
    forall c
      ensures Expand(OctalIfUnprintable(c), Subst('\\', Backslash2)) == OctalThenDoubled(c)
    {
      FirstTwoPasses(c);
    }
    ExpandCompose(input, OctalIfUnprintable, Subst('\\', Backslash2), OctalThenDoubled);
    forall c
      ensures Expand(OctalThenDoubled(c), Subst('"', BackslashQuote)) == AttrEscapeAsWritten(c)
    {
      LastPass(c);
    }
    ExpandCompose(input, OctalThenDoubled, Subst('"', BackslashQuote), AttrEscapeAsWritten);
  }

  // ---------------------------------------------------------------------
  // Properties
  // ---------------------------------------------------------------------

  /** Every character escattr writes is printable. */
  lemma EscattrPrintable(s: Str8)
    ensures forall u :: 0 <= u < |Expand(s, AttrEscapeAsWritten)| ==> Expand(s, AttrEscapeAsWritten)[u] in Printable
  {
    PrintableHasEscapes();
    ExpandChars(s, AttrEscapeAsWritten, (x: Char8) => x in Printable);
  }

  /** A printable attribute without backslashes and quotes is unchanged. */
  lemma EscattrKeepsPlain(s: Str8)
    requires forall t :: 0 <= t < |s| ==> s[t] in Printable && s[t] != '\\' && s[t] != '"'
    ensures Expand(s, AttrEscapeAsWritten) == s
  {
    ExpandFixed(s, AttrEscapeAsWritten);
  }

  /** The input that shows escattr is not injective: a tab and the four
      characters `\011` are escaped to the same `\\011`. */
  lemma EscattrTabCollides()
    ensures Expand("\t", AttrEscapeAsWritten) == Expand("\\011", AttrEscapeAsWritten)
    ensures "\t" != "\\011"
  {
    EscapedTab();
    EscapedBackslash011();
  }

  lemma TabUnprintable()
    ensures '\t' !in Printable
  {
    var tab: Char8 := '\t';
    assert tab !in CharRange('A', 26) + CharRange('a', 26) + CharRange('0', 10);
    assert tab !in Punctuation;
  }

  lemma EscapedTab()
    ensures Expand("\t", AttrEscapeAsWritten) == Backslash2 + Octstring(9)
  {
    TabUnprintable();
    var tab: Str8 := "\t";
    assert AttrEscapeAsWritten(tab[0]) == Backslash2 + Octstring(9);
    assert tab[1..] == [];
  }

  lemma EscapedBackslash011()
    ensures Expand("\\011", AttrEscapeAsWritten) == Backslash2 + Octstring(9)
  {
    var o := Octstring(9);
    PrintableHasEscapes();
    ExpandFixed(o, AttrEscapeAsWritten);
    var input: Str8 := "\\011";
    Octstring9();
    assert input == ['\\'] + o;
  }

  /** A tab is `011` in octal. */
  lemma Octstring9()
    ensures Octstring(9) == "011"
  {
    assert 9 / 64 == 0 && (9 / 8) % 8 == 1 && 9 % 8 == 1;
    assert OctDigit(0) == '0' && OctDigit(1) == '1';
  }

  // ---------------------------------------------------------------------
  // The corrected escattr: backslashes are doubled first
  // ---------------------------------------------------------------------

  /** The intended escape of one character: a backslash, a quote, or an
      unprintable character written as ONE backslash and its octal digits. */
  function AttrEscape(c: Char8): Str8
  {
    if c == '\\' then Backslash2
    else if c == '"' then BackslashQuote
    else if c in Printable then [c]
    else ['\\'] + Octstring(c as int)
  }

  /** The backslash pass, then the octal pass, on one character. */
  function DoubledThenOctal(c: Char8): Str8
  {
    if c == '\\' then Backslash2
    else OctalIfUnprintable(c)
  }

  lemma CorrectedFirstTwoPasses(c: Char8)
    ensures Expand(Subst('\\', Backslash2)(c), OctalIfUnprintable) == DoubledThenOctal(c)
  {
    PrintableHasEscapes();
    if c == '\\' {
      assert Expand(Backslash2, OctalIfUnprintable) == Backslash2;
    } else {
      assert Expand([c], OctalIfUnprintable) == OctalIfUnprintable(c) + [];
    }
  }

  lemma CorrectedLastPass(c: Char8)
    ensures Expand(DoubledThenOctal(c), Subst('"', BackslashQuote)) == AttrEscape(c)
  {
    var f := Subst('"', BackslashQuote);
    if c == '\\' {
      assert Expand(Backslash2, f) == Backslash2;
    } else if c !in Printable {
      var o := Octstring(c as int);
      ExpandAppend(['\\'], o, f);
      OctalNoSpecial(c, '"');
      ExpandFixed(o, f);
    }
  }

  /** escattr with the backslash loop moved before the octal loop. */
  method EscattrCorrected(input: Str8) returns (r: Str8)
    ensures r == Expand(input, AttrEscape)
  {
    OctalPassFits();
    var s1 := ReplaceChar(input, '\\', Backslash2);
    var s2 := EscapeNotIn(s1, Printable, OctalIfUnprintable, 0);
    r := ReplaceChar(s2, '"', BackslashQuote);
    forall c
      ensures Expand(Subst('\\', Backslash2)(c), OctalIfUnprintable) == DoubledThenOctal(c)
    {
      CorrectedFirstTwoPasses(c);
    }
    ExpandCompose(input, Subst('\\', Backslash2), OctalIfUnprintable, DoubledThenOctal);
    forall c
      ensures Expand(DoubledThenOctal(c), Subst('"', BackslashQuote)) == AttrEscape(c)
    {
      CorrectedLastPass(c);
    }
    ExpandCompose(input, DoubledThenOctal, Subst('"', BackslashQuote), AttrEscape);
  }

  /** The character three octal digits stand for, when it is a byte. */
  predicate OctalEscapeAt(t: Str8)
  {
    |t| >= 4 && t[0] == '\\' && '0' <= t[1] <= '3' && '0' <= t[2] <= '7' && '0' <= t[3] <= '7'
  }

  function OctalValue(t: Str8): (c: Char8)
    requires OctalEscapeAt(t)
  {
    (((t[1] as int) - 48) * 64 + ((t[2] as int) - 48) * 8 + ((t[3] as int) - 48)) as char
  }

  /** A decoder for the corrected escapes: `\\` and `\"` stand for the
      second character, `\ooo` for the byte with that octal code, and every
      other character for itself. */
  function AttrUnescape(t: Str8): (r: Str8)
    ensures |r| <= |t|
    decreases |t|
  {
    if t == [] then []
    else if |t| >= 2 && t[0] == '\\' && (t[1] == '\\' || t[1] == '"') then [t[1]] + AttrUnescape(t[2..])
    else if OctalEscapeAt(t) then [OctalValue(t)] + AttrUnescape(t[4..])
    else [t[0]] + AttrUnescape(t[1..])
  }

  lemma UnescapeOne(c: Char8, rest: Str8)
    ensures AttrUnescape(AttrEscape(c) + rest) == [c] + AttrUnescape(rest)
  {
    var t := AttrEscape(c) + rest;
    if c == '\\' || c == '"' {
      assert t[0] == '\\' && t[1] == c && t[2..] == rest;
    } else if c in Printable {
      assert t[0] == c && t[1..] == rest;
    } else {
      var o := Octstring(c as int);
      assert t[0] == '\\' && t[1..4] == o && t[4..] == rest;
      assert OctalEscapeAt(t);
      assert OctalValue(t) == c;
    }
  }

  /** The corrected escattr can be undone, so distinct attributes stay
      distinct. */
  lemma {:induction false} AttrUnescapeOfEscape(s: Str8)
    ensures AttrUnescape(Expand(s, AttrEscape)) == s
  {
    if s != [] {
      UnescapeOne(s[0], Expand(s[1..], AttrEscape));
      AttrUnescapeOfEscape(s[1..]);
      assert s == [s[0]] + s[1..];
    }
  }
}
