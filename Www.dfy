/** Percent-escaping of identifiers: id2www and www2id (escaping.cc:151-222). */
module WwwEscaping {
  import opened Escaping

  /** The default `allowable` set of id2www (escaping.cc:148): the upper-case
      letters, the lower-case letters, the digits and `-+_/.\*`, in that
      order. */
  const DefaultAllowable: Str8 :=
    CharRange('A', 26) + CharRange('a', 26) + CharRange('0', 10) + "-+_/.\\*"

  /** What id2www does to one character. */
  function WwwEscape(allowable: Str8): Char8 -> Str8
  {
    (c: Char8) => if c in allowable then [c] else ['%'] + Hexstring(c as int)
  }

  /** The lower-case hex digits `hexstring` prints are all allowable.  The
      loop rescans the two digits it has just written, so without this it
      escapes them again and never ends. */
  predicate HexDigitsAllowable(allowable: Str8)
  {
    forall d :: 0 <= d < 16 ==> HexDigit(d) in allowable
  }

  /** `id2www(in, allowable)`: every character outside `allowable` becomes
      `%` followed by its two hex digits; the others are kept. */
  method Id2Www(input: Str8, allowable: Str8) returns (r: Str8)
    requires HexDigitsAllowable(allowable)
    ensures r == Expand(input, WwwEscape(allowable))
  {
    r := EscapeNotIn(input, allowable, WwwEscape(allowable), 1);
  }

  lemma DefaultAllowableHasHexDigits()
    ensures HexDigitsAllowable(DefaultAllowable)
  {
    forall d | 0 <= d < 16
      ensures HexDigit(d) in DefaultAllowable
    {
      if d < 10 {
        assert HexDigit(d) == DefaultAllowable[52 + d];
      } else {
        assert HexDigit(d) == DefaultAllowable[26 + d - 10];
      }
    }
  }

  lemma PercentNotAllowable()
    ensures '%' !in DefaultAllowable
  {
    var tail: Str8 := "-+_/.\\*";
    assert '%' !in CharRange('A', 26) + CharRange('a', 26) + CharRange('0', 10);
    assert '%' !in tail;
  }

  /** An id2www result keeps exactly the allowable characters: a string made
      of them only is left unchanged, and every character of a result is
      allowable or comes from an escape `%xy`. */
  lemma Id2WwwKeepsAllowable(s: Str8, allowable: Str8)
    requires forall t :: 0 <= t < |s| ==> s[t] in allowable
    ensures Expand(s, WwwEscape(allowable)) == s
  {
    ExpandFixed(s, WwwEscape(allowable));
  }

  lemma Id2WwwChars(s: Str8, allowable: Str8)
    ensures forall u :: 0 <= u < |Expand(s, WwwEscape(allowable))| ==>
      var c := Expand(s, WwwEscape(allowable))[u];
      c in allowable || c == '%' || IsHexDigit(c)
  {
    ExpandChars(s, WwwEscape(allowable), (c: Char8) => c in allowable || c == '%' || IsHexDigit(c));
  }

  // ---------------------------------------------------------------------
  // www2id
  // ---------------------------------------------------------------------

  /** What www2id is meant to compute: each escape character starts a
      three-character escape that is decoded once (or kept when it equals
      `except`), and the decoded text is not looked at again. */
  function WwwDecode(t: Str8, escape: Str8, except: Str8): (r: Str8)
    ensures |r| <= |t|
    decreases |t|
  {
    if t == [] then []
    else if t[0] !in escape then [t[0]] + WwwDecode(t[1..], escape, except)
    else
      var m := Min(3, |t|);
      if t[..m] == except then t[..m] + WwwDecode(t[m..], escape, except)
      else Unhexstring(t[1..m]) + WwwDecode(t[m..], escape, except)
  }

  /** www2id as written: after a replacement the search resumes AT the
      decoded character, so a decoded escape character starts a new escape. */
  function Www2IdAsWritten(t: Str8, escape: Str8, except: Str8): (r: Str8)
    ensures |r| <= |t|
    decreases |t|
  {
    if t == [] then []
    else if t[0] !in escape then [t[0]] + Www2IdAsWritten(t[1..], escape, except)
    else
      var m := Min(3, |t|);
      if t[..m] == except then t[..m] + Www2IdAsWritten(t[m..], escape, except)
      else
        assert |t[1..m]| == 0 ==> HexPrefixValue(t[1..m]) == 0;
        Www2IdAsWritten(Unhexstring(t[1..m]) + t[m..], escape, except)
  }

  /** A stretch without escape characters is copied by WwwDecode. */
  lemma {:induction false} WwwDecodeSkip(s: Str8, a: nat, b: nat, escape: Str8, except: Str8)
    requires a <= b <= |s|
    requires forall q :: a <= q < b ==> s[q] !in escape
    ensures WwwDecode(s[a..], escape, except) == s[a..b] + WwwDecode(s[b..], escape, except)
    decreases b - a
  {
    if a < b {
      assert s[a..][0] == s[a];
      assert s[a..][1..] == s[a + 1..];
      WwwDecodeSkip(s, a + 1, b, escape, except);
      assert s[a..b] == [s[a]] + s[a + 1..b];
    }
  }

  /** www2id leaves a string without escape characters unchanged. */
  lemma WwwDecodeNoEscape(s: Str8, escape: Str8, except: Str8)
    requires forall q :: 0 <= q < |s| ==> s[q] !in escape
    ensures WwwDecode(s, escape, except) == s
  {
    WwwDecodeSkip(s, 0, |s|, escape, except);
    assert s[0..] == s;
    assert s[|s|..] == [];
  }

  /** An occurrence of `except` is never decoded. */
  lemma WwwDecodeKeepsExcept(a: Str8, b: Str8, escape: Str8, except: Str8)
    requires |except| == 3 && except[0] in escape
    requires forall q :: 0 <= q < |a| ==> a[q] !in escape
    ensures WwwDecode(a + except + b, escape, except) == a + except + WwwDecode(b, escape, except)
  {
    var s := a + except + b;
    WwwDecodeSkip(s, 0, |a|, escape, except);
    assert s[0..] == s;
    assert s[..|a|] == a;
    var t := s[|a|..];
    assert t == except + b;
    assert t[..3] == except;
    assert t[3..] == b;
  }

  /** The decoded result seen from an escape character found at `p`: the
      stretch before it is copied, then the escape is kept or decoded. */
  lemma WwwDecodeAt(res: Str8, i: nat, p: nat, m: nat, escape: Str8, except: Str8)
      returns (head: Str8)
    requires i <= p < |res| && res[p] in escape && m == Min(p + 3, |res|)
    requires forall q :: i <= q < p ==> res[q] !in escape
    ensures head == if res[p..m] == except then res[p..m] else Unhexstring(res[p + 1..m])
    ensures res[..i] + WwwDecode(res[i..], escape, except) ==
            res[..p] + (head + WwwDecode(res[m..], escape, except))
  {
    WwwDecodeSkip(res, i, p, escape, except);
    var t := res[p..];
    assert t[0] == res[p];
    assert t[..Min(3, |t|)] == res[p..m];
    assert t[Min(3, |t|)..] == res[m..];
    assert t[1..Min(3, |t|)] == res[p + 1..m];
    head := if res[p..m] == except then res[p..m] else Unhexstring(res[p + 1..m]);
    assert WwwDecode(t, escape, except) == head + WwwDecode(res[m..], escape, except);
    assert res[..p] == res[..i] + res[i..p];
    ConcatAssoc(res[..i], res[i..p], WwwDecode(t, escape, except));
  }

  /** One step of the www2id loop, from an escape character found at `p`:
      keeping the escape when it equals `except`, or decoding it, leaves the
      decoded result of the whole string unchanged. */
  lemma WwwDecodeKeep(res: Str8, i: nat, p: nat, m: nat, escape: Str8, except: Str8)
    requires i <= p < |res| && res[p] in escape && m == Min(p + 3, |res|)
    requires forall q :: i <= q < p ==> res[q] !in escape
    requires res[p..m] == except
    ensures res[..m] + WwwDecode(res[m..], escape, except)
            == res[..i] + WwwDecode(res[i..], escape, except)
  {
    var head := WwwDecodeAt(res, i, p, m, escape, except);
    assert res[..m] == res[..p] + head;
    ConcatAssoc(res[..p], head, WwwDecode(res[m..], escape, except));
  }

  lemma WwwDecodeReplace(res: Str8, i: nat, p: nat, m: nat, escape: Str8, except: Str8,
                         u: Str8, res': Str8)
    requires i <= p < |res| && res[p] in escape && m == Min(p + 3, |res|)
    requires forall q :: i <= q < p ==> res[q] !in escape
    requires res[p..m] != except
    requires u == Unhexstring(res[p + 1..m]) && res' == res[..p] + u + res[m..]
    ensures res'[..p + |u|] + WwwDecode(res'[p + |u|..], escape, except)
            == res[..i] + WwwDecode(res[i..], escape, except)
  {
    var head := WwwDecodeAt(res, i, p, m, escape, except);
    assert res'[..p + |u|] == res[..p] + u;
    assert res'[p + |u|..] == res[m..];
    ConcatAssoc(res[..p], u, WwwDecode(res[m..], escape, except));
  }

  /** `www2id(in, escape, except)`, with the decoded character skipped. */
  method Www2Id(input: Str8, escape: Str8, except: Str8) returns (res: Str8)
    ensures res == WwwDecode(input, escape, except)
  {
    var i: nat := 0;
    res := input;
    var found := FindFirstOf(res, escape, i);
    while found.Some?
      invariant i <= |res|
      invariant res[..i] + WwwDecode(res[i..], escape, except) == WwwDecode(input, escape, except)
      invariant found == FindFirstOf(res, escape, i)
      decreases |res| - i
    {
      var p := found.value;
      var m := Min(p + 3, |res|);
      if res[p..m] == except {
        WwwDecodeKeep(res, i, p, m, escape, except);
        i := m;
      } else {
        var u := Unhexstring(res[p + 1..m]);
        var res' := res[..p] + u + res[m..];
        WwwDecodeReplace(res, i, p, m, escape, except, u, res');
        res, i := res', p + |u|;
      }
      found := FindFirstOf(res, escape, i);
    }
    WwwDecodeNoEscape(res[i..], escape, except);
    assert res[..i] + res[i..] == res;
  }

  /** The round trip: www2id undoes id2www when `%` is the escape character
      and is not allowable, and the string holds no NUL (which `unhexstring`
      turns into the empty string). */
  lemma {:induction false} Www2IdOfId2Www(s: Str8, allowable: Str8)
    requires '%' !in allowable
    requires forall t :: 0 <= t < |s| ==> s[t] != 0 as char
    ensures WwwDecode(Expand(s, WwwEscape(allowable)), "%", "") == s
  {
    if s != [] {
      var c := s[0];
      var rest := Expand(s[1..], WwwEscape(allowable));
      assert Expand(s, WwwEscape(allowable)) == WwwEscape(allowable)(c) + rest;
      assert forall t :: 0 <= t < |s[1..]| ==> s[1..][t] == s[t + 1];
      Www2IdOfId2Www(s[1..], allowable);
      if c in allowable {
        DecodeAllowedHead(c, rest);
      } else {
        DecodeEscapedHead(c, rest);
      }
      assert s == [c] + s[1..];
    }
  }

  /** A character other than `%` is decoded as itself. */
  lemma DecodeAllowedHead(c: Char8, rest: Str8)
    requires c != '%'
    ensures WwwDecode([c] + rest, "%", "") == [c] + WwwDecode(rest, "%", "")
  {
    var x := [c] + rest;
    assert x[0] == c && x[1..] == rest;
  }

  /** The escape id2www writes for a character other than NUL decodes back
      to it. */
  lemma DecodeEscapedHead(c: Char8, rest: Str8)
    requires c != 0 as char
    ensures WwwDecode(['%'] + Hexstring(c as int) + rest, "%", "") ==
            [c] + WwwDecode(rest, "%", "")
  {
    var h := Hexstring(c as int);
    var x := ['%'] + h + rest;
    assert x[0] == '%' && x[..3] != [] && x[1..3] == h && x[3..] == rest;
    UnhexstringOfHexstring(c as int);
    assert Unhexstring(h) == [c];
  }

  /** The input that shows the double decoding of www2id as written:
      id2www("%41") is "%2541", which www2id as written turns into "A"
      instead of back into "%41". */
  lemma Id2WwwOfPercent41()
    ensures Expand("%41", WwwEscape(DefaultAllowable)) == "%2541"
  {
    var f := WwwEscape(DefaultAllowable);
    DefaultAllowableHasHexDigits();
    PercentNotAllowable();
    Hexstring37();
    assert HexDigit(4) == '4' && HexDigit(1) == '1';
    var digits: Str8 := "41";
    ExpandFixed(digits, f);
    var s: Str8 := "%41";
    assert s[0] == '%' && s[1..] == digits;
    var pct: Str8 := "%25";
    assert f('%') == pct;
    assert Expand(s, f) == pct + digits;
  }

  /** `%` is 0x25. */
  lemma Hexstring37()
    ensures Hexstring(37) == "25"
  {
    assert 37 / 16 == 2 && 37 % 16 == 5;
    assert HexDigit(2) == '2' && HexDigit(5) == '5';
  }

  lemma Unhexstring25And41()
    ensures Unhexstring("25") == "%"
    ensures Unhexstring("41") == "A"
  {
    assert HexPrefixValue("25") == 37;
    assert HexPrefixValue("41") == 65;
  }

  lemma Www2IdAsWrittenDecodesTwice()
    ensures Www2IdAsWritten("%2541", "%", "") == "A"
  {
    Unhexstring25And41();
    var t := "%2541";
    assert t[..Min(3, |t|)] == "%25" && t[1..Min(3, |t|)] == "25" && t[Min(3, |t|)..] == "41";
    assert "%" + "41" == "%41";
    var v := "%41";
    assert v[..Min(3, |v|)] == "%41" && v[1..Min(3, |v|)] == "41" && v[Min(3, |v|)..] == [];
    assert Www2IdAsWritten("A", "%", "") == "A";
  }

  lemma Www2IdDecodesOnce()
    ensures WwwDecode("%2541", "%", "") == "%41"
  {
    Unhexstring25And41();
    var t := "%2541";
    assert t[..Min(3, |t|)] == "%25" && t[1..Min(3, |t|)] == "25" && t[Min(3, |t|)..] == "41";
    assert "41"[1..] == "1" && "1"[1..] == [];
    assert WwwDecode("1", "%", "") == "1";
    assert WwwDecode("41", "%", "") == "41";
  }

  /** The decoder reads a signed escape: `%-1` becomes the byte 0xff, as
      written and corrected alike. */
  lemma Www2IdSignedEscape()
    ensures Www2IdAsWritten("%-1", "%", "") == [255 as char]
    ensures WwwDecode("%-1", "%", "") == [255 as char]
  {
    UnhexstringSignAndSpace();
    var t := "%-1";
    assert t[..Min(3, |t|)] == "%-1" && t[1..Min(3, |t|)] == "-1" && t[Min(3, |t|)..] == [];
    assert [255 as char] + [] == [255 as char];
    var u: Str8 := [255 as char];
    assert u[1..] == [];
    assert Www2IdAsWritten(u, "%", "") == u;
  }

  // ---------------------------------------------------------------------
  // esc2underscore
  // ---------------------------------------------------------------------

  /** What esc2underscore computes: each `%` and the (at most) two
      characters after it become one `_`. */
  function Underscored(t: Str8): (r: Str8)
    ensures '%' !in r
    ensures |r| <= |t|
    decreases |t|
  {
    if t == [] then []
    else if t[0] == '%' then ['_'] + Underscored(t[Min(3, |t|)..])
    else [t[0]] + Underscored(t[1..])
  }

  /** A stretch without `%` is copied. */
  lemma {:induction false} UnderscoredSkip(a: Str8, b: Str8)
    requires '%' !in a
    ensures Underscored(a + b) == a + Underscored(b)
  {
    if a != [] {
      assert (a + b)[0] == a[0] && (a + b)[1..] == a[1..] + b;
      UnderscoredSkip(a[1..], b);
      assert a == [a[0]] + a[1..];
    } else {
      assert a + b == b;
    }
  }

  /** esc2underscore leaves a string without `%` unchanged. */
  lemma UnderscoredNoPercent(t: Str8)
    requires '%' !in t
    ensures Underscored(t) == t
  {
    UnderscoredSkip(t, []);
    assert t + [] == t;
  }

  /** One step of the esc2underscore loop: the first `%` is at `p`, and the
      replacement leaves the final result unchanged. */
  lemma UnderscoredStep(s: Str8, p: nat)
    requires p < |s| && s[p] == '%' && '%' !in s[..p]
    ensures Underscored(s[..p] + ['_'] + s[Min(p + 3, |s|)..]) == Underscored(s)
  {
    var m := Min(p + 3, |s|);
    var t := s[p..];
    assert s == s[..p] + t;
    UnderscoredSkip(s[..p], t);
    assert t[Min(3, |t|)..] == s[m..];
    ConcatAssoc(s[..p], ['_'], s[m..]);
    UnderscoredSkip(s[..p], ['_'] + s[m..]);
  }

  /** `esc2underscore(s)`.  Every search starts again at the front of the
      string, which finds the same `%` as a search from the last
      replacement, since the `_` written is not a `%`. */
  method Esc2Underscore(input: Str8) returns (s: Str8)
    ensures s == Underscored(input)
  {
    s := input;
    ghost var done: nat := 0;
    var found := FindFirstOf(s, ['%'], 0);
    while found.Some?
      invariant done <= |s| && '%' !in s[..done]
      invariant Underscored(s) == Underscored(input)
      invariant found == FindFirstOf(s, ['%'], 0)
      decreases |s| - done
    {
      var pos := found.value;
      assert '%' !in s[..pos];
      UnderscoredStep(s, pos);
      s := s[..pos] + ['_'] + s[Min(pos + 3, |s|)..];
      done := pos + 1;
      assert s[..done] == s[..pos] + ['_'];
      found := FindFirstOf(s, ['%'], 0);
    }
    assert '%' !in s;
    UnderscoredNoPercent(s);
  }

  /** What esc2underscore makes of an id2www result: each escaped character
      is one `_` and the allowable ones are kept. */
  function Unsafe2Underscore(allowable: Str8): Char8 -> Str8
  {
    (c: Char8) => if c in allowable then [c] else ['_']
  }

  lemma {:induction false} UnderscoredOfId2Www(s: Str8, allowable: Str8)
    requires '%' !in allowable
    ensures Underscored(Expand(s, WwwEscape(allowable))) == Expand(s, Unsafe2Underscore(allowable))
  {
    if s != [] {
      var c := s[0];
      var rest := Expand(s[1..], WwwEscape(allowable));
      UnderscoredOfId2Www(s[1..], allowable);
      if c in allowable {
        UnderscoredSkip([c], rest);
      } else {
        var x := ['%'] + Hexstring(c as int) + rest;
        assert x[0] == '%' && x[Min(3, |x|)..] == rest;
      }
    }
  }
}
