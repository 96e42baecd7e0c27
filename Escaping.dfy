/** Identifier and attribute escaping (escaping.cc).

    A C++ `std::string` is a sequence of 8-bit `char`s; here it is a sequence
    of Dafny characters whose code is below 256.  The in-place rewriting loops
    of the source (find the next offending character, `replace` it, move the
    index) are methods with `while` loops over such a sequence; each is proved
    equal to a specification function, and the properties the routines promise
    are lemmas about those functions. */
module Escaping {
  import opened Wrappers

  /** One C++ `char`, read as `unsigned char`. */
  type Char8 = c: char | (c as int) < 256

  type Str8 = seq<Char8>

  type Byte = x: int | 0 <= x < 256

  function Min(a: int, b: int): int { if a <= b then a else b }

  /** `n` consecutive characters from `first` on. */
  function CharRange(first: Char8, n: nat): (r: Str8)
    requires first as int + n <= 256
    ensures |r| == n
    ensures forall t :: 0 <= t < n ==> r[t] as int == first as int + t
  {
    seq(n, (t: int) requires 0 <= t < n => (first as int + t) as char)
  }

  // ---------------------------------------------------------------------
  // The std::string search primitives the loops use
  // ---------------------------------------------------------------------

  /** `s.find_first_not_of(set, from)`; None stands for `npos`. */
  function FindFirstNotOf(s: Str8, chars: Str8, from: nat): (r: Option<nat>)
    ensures r.Some? ==> from <= r.value < |s| && s[r.value] !in chars
    ensures r.Some? ==> forall t :: from <= t < r.value ==> s[t] in chars
    ensures r.None? ==> forall t :: from <= t < |s| ==> s[t] in chars
    decreases |s| - from
  {
    if from >= |s| then None
    else if s[from] !in chars then Some(from)
    else FindFirstNotOf(s, chars, from + 1)
  }

  /** `s.find_first_of(set, from)`, and `s.find(c, from)` for a one-character
      needle `[c]`. */
  function FindFirstOf(s: Str8, chars: Str8, from: nat): (r: Option<nat>)
    ensures r.Some? ==> from <= r.value < |s| && s[r.value] in chars
    ensures r.Some? ==> forall t :: from <= t < r.value ==> s[t] !in chars
    ensures r.None? ==> forall t :: from <= t < |s| ==> s[t] !in chars
    decreases |s| - from
  {
    if from >= |s| then None
    else if s[from] in chars then Some(from)
    else FindFirstOf(s, chars, from + 1)
  }

  /** Does `pat` occur in `s` at position `p`? */
  predicate MatchesAt(s: Str8, pat: Str8, p: nat)
  {
    p + |pat| <= |s| && s[p..p + |pat|] == pat
  }

  lemma ConcatAssoc(a: Str8, b: Str8, c: Str8)
    ensures a + b + c == a + (b + c)
  {
  }

  /** The pieces of a string in which `n` characters at `p` are replaced by `r`. */
  lemma SpliceSlices(s: Str8, p: nat, n: nat, r: Str8)
    requires p + n <= |s|
    ensures var s' := s[..p] + r + s[p + n..];
      s'[..p] == s[..p] && s'[p..] == r + s[p + n..] &&
      s'[..p + |r|] == s[..p] + r && s'[p + |r|..] == s[p + n..]
  {
    var s' := s[..p] + r + s[p + n..];
    assert s'[p..] == r + s[p + n..];
  }

  /** One differing character rules out a match. */
  lemma MismatchAt(s: Str8, pat: Str8, p: nat, u: nat)
    requires u < |pat| && p + u < |s| && s[p + u] != pat[u]
    ensures !MatchesAt(s, pat, p)
  {
    if p + |pat| <= |s| {
      assert s[p..p + |pat|][u] == s[p + u];
    }
  }

  /** `s.find(pat, from)` for a non-empty needle. */
  function Find(s: Str8, pat: Str8, from: nat): (r: Option<nat>)
    requires |pat| > 0
    ensures r.Some? ==> from <= r.value && MatchesAt(s, pat, r.value)
    ensures r.Some? ==> forall t :: from <= t < r.value ==> !MatchesAt(s, pat, t)
    ensures r.None? ==> forall t :: from <= t ==> !MatchesAt(s, pat, t)
    decreases |s| - from
  {
    if from + |pat| > |s| then None
    else if s[from..from + |pat|] == pat then Some(from)
    else Find(s, pat, from + 1)
  }

  // ---------------------------------------------------------------------
  // Character-by-character rewriting, the meaning of every escaping loop
  // ---------------------------------------------------------------------

  /** The string obtained by replacing every character `c` of `s` by `f(c)`. */
  function Expand(s: Str8, f: Char8 -> Str8): Str8
  {
    if s == [] then [] else f(s[0]) + Expand(s[1..], f)
  }

  lemma {:induction false} ExpandAppend(a: Str8, b: Str8, f: Char8 -> Str8)
    ensures Expand(a + b, f) == Expand(a, f) + Expand(b, f)
  {
    if a == [] {
      assert a + b == b;
    } else {
      assert (a + b)[1..] == a[1..] + b;
      ExpandAppend(a[1..], b, f);
    }
  }

  /** Characters that `f` keeps are left in place. */
  lemma {:induction false} ExpandFixed(a: Str8, f: Char8 -> Str8)
    requires forall t :: 0 <= t < |a| ==> f(a[t]) == [a[t]]
    ensures Expand(a, f) == a
  {
    if a != [] {
      forall t | 0 <= t < |a[1..]|
        ensures f(a[1..][t]) == [a[1..][t]]
      {
        assert a[1..][t] == a[t + 1];
      }
      ExpandFixed(a[1..], f);
      assert f(a[0]) == [a[0]];
      assert a == [a[0]] + a[1..];
    }
  }

  /** Every character of `Expand(s, f)` comes from some `f(s[t])`. */
  lemma {:induction false} ExpandChars(s: Str8, f: Char8 -> Str8, P: Char8 -> bool)
    requires forall t, u :: 0 <= t < |s| && 0 <= u < |f(s[t])| ==> P(f(s[t])[u])
    ensures forall u :: 0 <= u < |Expand(s, f)| ==> P(Expand(s, f)[u])
  {
    if s != [] {
      assert forall t :: 0 <= t < |s[1..]| ==> s[1..][t] == s[t + 1];
      ExpandChars(s[1..], f, P);
      assert forall u :: 0 <= u < |f(s[0])| ==> P(f(s[0])[u]);
    }
  }

  lemma ExpandPrefixStep(s: Str8, k: nat, f: Char8 -> Str8)
    requires k < |s|
    ensures Expand(s[..k + 1], f) == Expand(s[..k], f) + f(s[k])
  {
    assert s[..k + 1] == s[..k] + [s[k]];
    ExpandAppend(s[..k], [s[k]], f);
    assert [s[k]][1..] == [];
  }

  /** Expanding a prefix that `f` keeps, then one more character. */
  lemma {:induction false} ExpandStepFixed(s: Str8, k: nat, d: nat, f: Char8 -> Str8)
    requires k + d < |s|
    requires forall q :: k <= q < k + d ==> f(s[q]) == [s[q]]
    ensures Expand(s[..k + d + 1], f) == Expand(s[..k], f) + s[k..k + d] + f(s[k + d])
  {
    if d == 0 {
      ExpandPrefixStep(s, k, f);
    } else {
      ExpandStepFixed(s, k, d - 1, f);
      ExpandPrefixStep(s, k + d, f);
      assert s[k..k + d] == s[k..k + d - 1] + [s[k + d - 1]];
    }
  }

  /** A suffix that `f` keeps is copied unchanged. */
  lemma {:induction false} ExpandFinish(s: Str8, k: nat, f: Char8 -> Str8)
    requires k <= |s|
    requires forall q :: k <= q < |s| ==> f(s[q]) == [s[q]]
    ensures Expand(s, f) == Expand(s[..k], f) + s[k..]
    decreases |s| - k
  {
    if k == |s| {
      assert s[..k] == s;
      assert s[k..] == [];
    } else {
      ExpandFinish(s, k + 1, f);
      ExpandPrefixStep(s, k, f);
      assert s[k..] == [s[k]] + s[k + 1..];
    }
  }

  /** One step of a rewriting loop: the input is rewritten up to `k`, the
      next `d` characters are kept, and the one after them, at position `p`
      of the current string `s`, is replaced by `r`. */
  lemma RewriteStep(input: Str8, k: nat, d: nat, f: Char8 -> Str8, s: Str8, p: nat, r: Str8)
    requires k + d < |input|
    requires s == Expand(input[..k], f) + input[k..]
    requires p == |Expand(input[..k], f)| + d
    requires forall q :: k <= q < k + d ==> f(input[q]) == [input[q]]
    requires r == f(input[k + d])
    ensures p < |s| && s[p] == input[k + d]
    ensures s[..p] + r + s[p + 1..] == Expand(input[..k + d + 1], f) + input[k + d + 1..]
    ensures |Expand(input[..k + d + 1], f)| == p + |r|
  {
    var e := Expand(input[..k], f);
    ExpandStepFixed(input, k, d, f);
    assert s[..p] == e + input[k..k + d];
    assert s[p + 1..] == input[k + d + 1..];
  }

  /** The kept stretch `s[|e|..|e| + d]` of a partly rewritten string is
      input `k..k + d`, so what the search saw there holds of the input. */
  lemma KeptNotIn(input: Str8, k: nat, e: Str8, s: Str8, d: nat, chars: Str8)
    requires k + d <= |input| && s == e + input[k..]
    requires forall t :: |e| <= t < |e| + d ==> s[t] !in chars
    ensures forall q :: k <= q < k + d ==> input[q] !in chars
  {
    forall q | k <= q < k + d
      ensures input[q] !in chars
    {
      assert s[|e| + (q - k)] == input[q];
    }
  }

  lemma KeptIn(input: Str8, k: nat, e: Str8, s: Str8, d: nat, chars: Str8)
    requires k + d <= |input| && s == e + input[k..]
    requires forall t :: |e| <= t < |e| + d ==> s[t] in chars
    ensures forall q :: k <= q < k + d ==> input[q] in chars
  {
    forall q | k <= q < k + d
      ensures input[q] in chars
    {
      assert s[|e| + (q - k)] == input[q];
    }
  }

  /** `Expand` depends only on the values `f` takes on the characters of `s`. */
  lemma {:induction false} ExpandCongruent(s: Str8, f: Char8 -> Str8, g: Char8 -> Str8)
    requires forall t :: 0 <= t < |s| ==> f(s[t]) == g(s[t])
    ensures Expand(s, f) == Expand(s, g)
  {
    if s != [] {
      assert forall t :: 0 <= t < |s[1..]| ==> s[1..][t] == s[t + 1];
      ExpandCongruent(s[1..], f, g);
    }
  }

  /** Two rewriting passes in a row are one pass with the composed rewriting. */
  lemma {:induction false} ExpandCompose(s: Str8, f: Char8 -> Str8, g: Char8 -> Str8, h: Char8 -> Str8)
    requires forall c :: Expand(f(c), g) == h(c)
    ensures Expand(Expand(s, f), g) == Expand(s, h)
  {
    if s != [] {
      ExpandAppend(f(s[0]), Expand(s[1..], f), g);
      ExpandCompose(s[1..], f, g, h);
    }
  }

  // ---------------------------------------------------------------------
  // The two rewriting loops shared by id2www, escattr and id2xml
  // ---------------------------------------------------------------------

  /** The loop `while ((i = s.find_first_not_of(keep, i)) != npos) {
      s.replace(i, 1, f(s[i])); i += skip; }`: every character outside `keep`
      is replaced by `f` of it.  The characters of a replacement from position
      `skip` on are rescanned, so they must be in `keep`. */
  method EscapeNotIn(input: Str8, keep: Str8, f: Char8 -> Str8, skip: nat) returns (s: Str8)
    requires forall c :: c in keep ==> f(c) == [c]
    requires forall c :: c !in keep ==> skip <= |f(c)|
    requires forall c, u :: c !in keep && skip <= u < |f(c)| ==> f(c)[u] in keep
    ensures s == Expand(input, f)
  {
    s := input;
    var i: nat := 0;
    ghost var k: nat := 0;
    var found := FindFirstNotOf(s, keep, i);
    while found.Some?
      invariant EscapeState(input, keep, f, k, s, i)
      invariant found == FindFirstNotOf(s, keep, i)
      decreases |input| - k
    {
      var p := found.value;
      k := EscapeStep(input, keep, f, skip, k, s, i, p);
      s := s[..p] + f(s[p]) + s[p + 1..];
      i := p + skip;
      found := FindFirstNotOf(s, keep, i);
    }
    EscapeDone(input, keep, f, k, s, i);
  }

  /** The state of the EscapeNotIn loop: the input is rewritten up to `k`,
      and the rewritten part after `i` holds characters of `keep` only. */
  ghost predicate EscapeState(input: Str8, keep: Str8, f: Char8 -> Str8, k: nat, s: Str8, i: nat)
  {
    k <= |input| &&
    s == Expand(input[..k], f) + input[k..] &&
    i <= |Expand(input[..k], f)| &&
    forall q :: i <= q < |Expand(input[..k], f)| ==> s[q] in keep
  }

  /** One step of the EscapeNotIn loop, from the character found at `p`. */
  lemma EscapeStep(input: Str8, keep: Str8, f: Char8 -> Str8, skip: nat, k: nat, s: Str8, i: nat, p: nat)
      returns (k': nat)
    requires forall c :: c in keep ==> f(c) == [c]
    requires forall c :: c !in keep ==> skip <= |f(c)|
    requires forall c, u :: c !in keep && skip <= u < |f(c)| ==> f(c)[u] in keep
    requires EscapeState(input, keep, f, k, s, i)
    requires FindFirstNotOf(s, keep, i) == Some(p)
    ensures k < k' <= |input|
    ensures EscapeState(input, keep, f, k', s[..p] + f(s[p]) + s[p + 1..], p + skip)
  {
    var e := Expand(input[..k], f);
    var d := p - |e|;
    KeptIn(input, k, e, s, d, keep);
    RewriteStep(input, k, d, f, s, p, f(s[p]));
    k' := k + d + 1;
    var s' := s[..p] + f(s[p]) + s[p + 1..];
    forall q | p + skip <= q < |Expand(input[..k'], f)|
      ensures s'[q] in keep
    {
      assert s'[q] == f(s[p])[q - p];
    }
  }

  lemma EscapeDone(input: Str8, keep: Str8, f: Char8 -> Str8, k: nat, s: Str8, i: nat)
    requires forall c :: c in keep ==> f(c) == [c]
    requires EscapeState(input, keep, f, k, s, i)
    requires FindFirstNotOf(s, keep, i) == None
    ensures s == Expand(input, f)
  {
    KeptIn(input, k, Expand(input[..k], f), s, |input| - k, keep);
    ExpandFinish(input, k, f);
  }

  /** Replace one character by a string. */
  function Subst(c: Char8, rep: Str8): Char8 -> Str8
  {
    x => if x == c then rep else [x]
  }

  /** One step of the ReplaceChar loop: the occurrence of `c` found at `p`
      is the next character of the input, and replacing it extends the
      rewritten prefix by one replacement. */
  lemma ReplaceStep(input: Str8, c: Char8, rep: Str8, k: nat, s: Str8, p: nat) returns (k': nat)
    requires k <= |input| && s == Expand(input[..k], Subst(c, rep)) + input[k..]
    requires FindFirstOf(s, [c], |Expand(input[..k], Subst(c, rep))|) == Some(p)
    ensures k < k' <= |input|
    ensures s[..p] + rep + s[p + 1..] == Expand(input[..k'], Subst(c, rep)) + input[k'..]
    ensures p + |rep| == |Expand(input[..k'], Subst(c, rep))|
  {
    var g := Subst(c, rep);
    var e := Expand(input[..k], g);
    var d := p - |e|;
    KeptNotIn(input, k, e, s, d, [c]);
    RewriteStep(input, k, d, g, s, p, rep);
    k' := k + d + 1;
  }

  /** The loop `while ((ind = s.find(c, ind)) != npos) { s.replace(ind, 1,
      rep); ind += rep.length(); }`: the search resumes after the
      replacement, so every occurrence of `c` in the input is replaced once. */
  method ReplaceChar(input: Str8, c: Char8, rep: Str8) returns (s: Str8)
    ensures s == Expand(input, Subst(c, rep))
  {
    s := input;
    var ind: nat := 0;
    ghost var k: nat := 0;
    var found := FindFirstOf(s, [c], ind);
    while found.Some?
      invariant k <= |input|
      invariant s == Expand(input[..k], Subst(c, rep)) + input[k..]
      invariant ind == |Expand(input[..k], Subst(c, rep))|
      invariant found == FindFirstOf(s, [c], ind)
      decreases |input| - k
    {
      var p := found.value;
      k := ReplaceStep(input, c, rep, k, s, p);
      s := s[..p] + rep + s[p + 1..];
      ind := p + |rep|;
      found := FindFirstOf(s, [c], ind);
    }
    KeptNotIn(input, k, Expand(input[..k], Subst(c, rep)), s, |input| - k, [c]);
    ExpandFinish(input, k, Subst(c, rep));
  }

  // ---------------------------------------------------------------------
  // hexstring, unhexstring, octstring (escaping.cc:79-109)
  // ---------------------------------------------------------------------

  /** A lower-case hex digit, as `ostream << hex` prints it. */
  function HexDigit(d: nat): (c: Char8)
    requires d < 16
  {
    if d < 10 then (('0' as int) + d) as char else (('a' as int) + d - 10) as char
  }

  predicate IsHexDigit(c: Char8)
  {
    ('0' <= c <= '9') || ('a' <= c <= 'f') || ('A' <= c <= 'F')
  }

  function HexValue(c: Char8): (v: nat)
    requires IsHexDigit(c)
    ensures v < 16
  {
    if c <= '9' then (c as int) - ('0' as int)
    else if c <= 'F' then (c as int) - ('A' as int) + 10
    else (c as int) - ('a' as int) + 10
  }

  /** `hexstring(val)`: the byte printed in hex, padded to two digits with '0'. */
  function Hexstring(val: Byte): (r: Str8)
    ensures |r| == 2
    ensures forall t :: 0 <= t < 2 ==> IsHexDigit(r[t]) && !('A' <= r[t] <= 'F')
    ensures HexValue(r[0]) * 16 + HexValue(r[1]) == val
  {
    [HexDigit(val / 16), HexDigit(val % 16)]
  }

  /** The white space `operator>>` skips before a number, in the C locale:
      space, tab, newline, vertical tab, form feed and carriage return. */
  predicate IsSpace(c: Char8)
  {
    c == ' ' || c == '\t' || c == '\n' || c as int == 11 || c as int == 12 || c == '\r'
  }

  /** The value of the leading hex digits of at most two characters, or 0
      when there are none. */
  function HexDigitsValue(s: Str8): (v: nat)
    requires |s| <= 2
    ensures v < 256
  {
    if |s| >= 1 && IsHexDigit(s[0]) then
      if |s| == 2 && IsHexDigit(s[1]) then HexValue(s[0]) * 16 + HexValue(s[1])
      else HexValue(s[0])
    else 0
  }

  /** The `int` read after an optional sign; a lone sign reads nothing. */
  function SignedHexValue(s: Str8): (v: int)
    requires |s| <= 2
    ensures -256 < v < 256
  {
    if |s| >= 1 && s[0] == '-' then 0 - HexDigitsValue(s[1..]) as int
    else if |s| >= 1 && s[0] == '+' then HexDigitsValue(s[1..])
    else HexDigitsValue(s)
  }

  /** The code `static_cast<char>(val)` keeps of the `int` that
      `istringstream >> hex >> val` reads from at most two characters:
      leading white space is skipped, a sign may come before the digits,
      and the value is taken modulo 256.  When a sign or another non-digit
      is reached first the extraction fails and stores 0.  When nothing but
      white space is there it stores nothing, and the code reads `val`
      uninitialised; the model takes 0 there too. */
  function HexPrefixValue(s: Str8): (v: nat)
    requires |s| <= 2
    ensures v < 256
    ensures |s| == 2 && IsHexDigit(s[0]) && IsHexDigit(s[1]) ==> v == HexValue(s[0]) * 16 + HexValue(s[1])
    ensures |s| >= 1 && IsHexDigit(s[0]) && (|s| == 1 || !IsHexDigit(s[1])) ==> v == HexValue(s[0])
    ensures |s| == 2 && (IsSpace(s[0]) || s[0] == '+') && IsHexDigit(s[1]) ==> v == HexValue(s[1])
    ensures |s| == 2 && s[0] == '-' && IsHexDigit(s[1]) ==> v == (256 - HexValue(s[1])) % 256
    ensures |s| == 0 || (!IsHexDigit(s[0]) && !IsSpace(s[0]) && s[0] != '+' && s[0] != '-') ==> v == 0
    ensures |s| >= 1 && (IsSpace(s[0]) || s[0] == '+' || s[0] == '-') && (|s| == 1 || !IsHexDigit(s[1])) ==> v == 0
  {
    var t := if |s| >= 1 && IsSpace(s[0]) then s[1..] else s;
    var t := if |t| >= 1 && IsSpace(t[0]) then t[1..] else t;
    SignedHexValue(t) % 256
  }

  /** `unhexstring(s)`: the character with the parsed code, as a C string of
      length one; a zero code is the terminating NUL, so the result is empty. */
  function Unhexstring(s: Str8): (r: Str8)
    requires |s| <= 2
    ensures |r| <= 1
    ensures r == [] <==> HexPrefixValue(s) == 0
    ensures r != [] ==> r[0] as int == HexPrefixValue(s)
  {
    var v := HexPrefixValue(s);
    if v == 0 then [] else [v as char]
  }

  lemma UnhexstringOfHexstring(c: Byte)
    ensures Unhexstring(Hexstring(c)) == if c == 0 then [] else [c as char]
  {
    var h := Hexstring(c);
    assert HexPrefixValue(h) == c;
  }

  /** The extraction skips white space and takes a sign: `-1` is the byte
      0xff, and ` 5` and `+5` are 5. */
  lemma UnhexstringSignAndSpace()
    ensures Unhexstring("-1") == [255 as char]
    ensures Unhexstring(" 5") == [5 as char]
    ensures Unhexstring("+5") == [5 as char]
    ensures Unhexstring("- ") == []
  {
    assert HexPrefixValue("-1") == 255;
    assert HexPrefixValue(" 5") == 5;
    assert HexPrefixValue("+5") == 5;
    assert HexPrefixValue("- ") == 0;
  }

  function OctDigit(d: nat): (c: Char8)
    requires d < 8
  {
    (('0' as int) + d) as char
  }

  /** `octstring(val)`: the byte printed in octal, padded to three digits. */
  function Octstring(val: Byte): (r: Str8)
    ensures |r| == 3
    ensures forall t :: 0 <= t < 3 ==> '0' <= r[t] <= '7'
    ensures ((r[0] as int) - 48) * 64 + ((r[1] as int) - 48) * 8 + ((r[2] as int) - 48) == val
  {
    [OctDigit(val / 64), OctDigit((val / 8) % 8), OctDigit(val % 8)]
  }
}
