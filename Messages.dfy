/** Quoting of error messages: munge_error_message (escaping.cc:388-404). */
module ErrorMessages {
  import opened Escaping

  const Backslash: Str8 := ['\\']
  const BackslashQuote: Str8 := ['\\', '"']

  /** The message with a `"` put in front and one at the end where it does
      not already have one. */
  function Quoted(msg: Str8): (q: Str8)
    requires |msg| >= 1
    ensures |q| >= |msg| && q[0] == '"' && q[|q| - 1] == '"'
  {
    var a := if msg[0] != '"' then ['"'] + msg else msg;
    if a[|a| - 1] != '"' then a + ['"'] else a
  }

  /** A quote whose preceding character is not a backslash gets one. */
  function QuoteEsc(prev: Char8, c: Char8): Str8
  {
    if c == '"' && prev != '\\' then BackslashQuote else [c]
  }

  /** The first character of `q` followed by its characters 1 to `k - 1`,
      each escaped with the character before it in `q`. */
  function EscapedPrefix(q: Str8, k: nat): (r: Str8)
    requires 1 <= k <= |q|
    ensures |r| >= k
    decreases k
  {
    if k == 1 then [q[0]] else EscapedPrefix(q, k - 1) + QuoteEsc(q[k - 2], q[k - 1])
  }

  /** What munge_error_message is defined to compute: the message quoted,
      and each inner quote that no backslash precedes escaped.  The last
      character is never looked at. */
  function Munged(msg: Str8): Str8
    requires |msg| >= 1 && msg != ['"']
  {
    var q := Quoted(msg);
    QuotedLong(msg);
    EscapedPrefix(q, |q| - 1) + [q[|q| - 1]]
  }

  /** The quoted message has two characters at least, so the loop has an
      end to stop at. */
  lemma QuotedLong(msg: Str8)
    requires |msg| >= 1 && msg != ['"']
    ensures |Quoted(msg)| >= 2
  {
  }

  /** The escaped prefix ends with the original character. */
  lemma EscapedPrefixLast(q: Str8, k: nat)
    requires 1 <= k <= |q|
    ensures EscapedPrefix(q, k)[|EscapedPrefix(q, k)| - 1] == q[k - 1]
  {
  }

  // ---------------------------------------------------------------------
  // The loop
  // ---------------------------------------------------------------------

  /** The state of the loop: the original characters of the quoted message
      `q` up to `k` have been dealt with; `i` is on the next one, or, when
      `pending`, still on the quote that has just been given a backslash. */
  ghost predicate MungeState(q: Str8, k: nat, pending: bool, m: Str8, i: nat)
  {
    1 <= k <= |q| - 1 &&
    m == EscapedPrefix(q, k) + q[k..] &&
    (pending ==> k >= 2 && q[k - 1] == '"' && q[k - 2] != '\\' && i + 1 == |EscapedPrefix(q, k)|) &&
    (!pending ==> i == |EscapedPrefix(q, k)|)
  }

  /** `munge_error_message(msg)`: the enclosing quotes, then the loop over
      the inner characters. */
  method MungeErrorMessage(msg: Str8) returns (m: Str8)
    requires |msg| >= 1 && msg != ['"']
    ensures m == Munged(msg)
  {
    m := msg;
    if m[0] != '"' {
      m := ['"'] + m;
    }
    if m[|m| - 1] != '"' {
      m := m + ['"'];
    }
    assert m == Quoted(msg);
    QuotedLong(msg);
    m := EscapeInnerQuotes(m);
  }

  /** The loop of munge_error_message over the characters between the
      first and the last.  After an insertion the iterator points at the
      backslash, so the next round looks at the quote again, finds the
      backslash before it and only steps on. */
  method EscapeInnerQuotes(q: Str8) returns (m: Str8)
    requires |q| >= 2
    ensures m == EscapedPrefix(q, |q| - 1) + [q[|q| - 1]]
  {
    m := q;
    var i: nat := 1;
    ghost var k: nat := 1;
    ghost var pending := false;
    while i != |m| - 1
      invariant MungeState(q, k, pending, m, i)
      decreases |q| - k, if pending then 1 else 0
    {
      k, pending := MungeRound(q, k, pending, m, i);
      if m[i] == '"' && m[i - 1] != '\\' {
        m := m[..i] + Backslash + m[i..];
      }
      i := i + 1;
    }
    MungeDone(q, k, pending, m, i);
  }

  /** One round of the loop. */
  lemma MungeRound(q: Str8, k: nat, pending: bool, m: Str8, i: nat) returns (k': nat, pending': bool)
    requires MungeState(q, k, pending, m, i) && i != |m| - 1
    ensures 1 <= i < |m|
    ensures MungeState(q, k', pending',
      if m[i] == '"' && m[i - 1] != '\\' then m[..i] + Backslash + m[i..] else m, i + 1)
    ensures k' > k || (k' == k && pending && !pending')
  {
    if pending {
      PendingRound(q, k, m, i);
      k', pending' := k, false;
    } else {
      MungeStep(q, k, m, i);
      k', pending' := k + 1, m[i] == '"' && m[i - 1] != '\\';
    }
  }

  /** The round after an insertion: the iterator is on the quote and the
      backslash just written is before it. */
  lemma PendingRound(q: Str8, k: nat, m: Str8, i: nat)
    requires 2 <= k <= |q| - 1 && q[k - 1] == '"' && q[k - 2] != '\\'
    requires m == EscapedPrefix(q, k) + q[k..] && i + 1 == |EscapedPrefix(q, k)|
    ensures 1 <= i < |m| && m[i - 1] == '\\'
  {
    var p := EscapedPrefix(q, k - 1);
    assert EscapedPrefix(q, k) == p + BackslashQuote;
    assert m[i - 1] == BackslashQuote[0];
  }

  lemma MungeDone(q: Str8, k: nat, pending: bool, m: Str8, i: nat)
    requires MungeState(q, k, pending, m, i) && i == |m| - 1
    ensures m == EscapedPrefix(q, |q| - 1) + [q[|q| - 1]]
  {
    MungeEnd(q, k, m, i);
  }

  /** The loop stops on the last character of the quoted message. */
  lemma MungeEnd(q: Str8, k: nat, m: Str8, i: nat)
    requires 1 <= k <= |q| - 1
    requires m == EscapedPrefix(q, k) + q[k..]
    requires i + 1 == |EscapedPrefix(q, k)| || i == |EscapedPrefix(q, k)|
    requires i == |m| - 1
    ensures m == EscapedPrefix(q, |q| - 1) + [q[|q| - 1]]
  {
    assert k == |q| - 1;
    assert q[k..] == [q[k]];
  }

  /** One round of the loop at the original character `q[k]`. */
  lemma MungeStep(q: Str8, k: nat, m: Str8, i: nat)
    requires 1 <= k < |q| - 1
    requires m == EscapedPrefix(q, k) + q[k..] && i == |EscapedPrefix(q, k)|
    ensures i < |m| && m[i] == q[k] && m[i - 1] == q[k - 1]
    ensures m[i] == '"' && m[i - 1] != '\\' ==>
      m[..i] + Backslash + m[i..] == EscapedPrefix(q, k + 1) + q[k + 1..] &&
      i + 2 == |EscapedPrefix(q, k + 1)|
    ensures !(m[i] == '"' && m[i - 1] != '\\') ==>
      m == EscapedPrefix(q, k + 1) + q[k + 1..] && i + 1 == |EscapedPrefix(q, k + 1)|
  {
    MungeAt(q, k, m, i);
    if q[k] == '"' && q[k - 1] != '\\' {
      MungeQuote(q, k, m, i);
    } else {
      MungePlain(q, k, m, i);
    }
  }

  /** Where the loop stands in the text: on `q[k]`, after the escaped prefix. */
  lemma MungeAt(q: Str8, k: nat, m: Str8, i: nat)
    requires 1 <= k < |q| - 1
    requires m == EscapedPrefix(q, k) + q[k..] && i == |EscapedPrefix(q, k)|
    ensures i < |m| && m[i] == q[k] && m[i - 1] == q[k - 1]
    ensures m[..i] == EscapedPrefix(q, k) && m[i..] == q[k..]
  {
    var p := EscapedPrefix(q, k);
    EscapedPrefixLast(q, k);
    assert m[i - 1] == p[|p| - 1];
  }

  /** A quote without a backslash before it gets one. */
  lemma MungeQuote(q: Str8, k: nat, m: Str8, i: nat)
    requires 1 <= k < |q| - 1 && q[k] == '"' && q[k - 1] != '\\'
    requires i <= |m| && m[..i] == EscapedPrefix(q, k) && m[i..] == q[k..]
    ensures m[..i] + Backslash + m[i..] == EscapedPrefix(q, k + 1) + q[k + 1..]
    ensures i + 2 == |EscapedPrefix(q, k + 1)|
  {
    var p := EscapedPrefix(q, k);
    var rest := q[k + 1..];
    assert EscapedPrefix(q, k + 1) == p + BackslashQuote;
    assert q[k..] == ['"'] + rest;
    assert Backslash + (['"'] + rest) == BackslashQuote + rest;
    ConcatAssoc(p, Backslash, ['"'] + rest);
    ConcatAssoc(p, BackslashQuote, rest);
  }

  /** Any other character is kept. */
  lemma MungePlain(q: Str8, k: nat, m: Str8, i: nat)
    requires 1 <= k < |q| - 1 && !(q[k] == '"' && q[k - 1] != '\\')
    requires i <= |m| && m[..i] == EscapedPrefix(q, k) && m[i..] == q[k..]
    ensures m == EscapedPrefix(q, k + 1) + q[k + 1..] && i + 1 == |EscapedPrefix(q, k + 1)|
  {
    var p := EscapedPrefix(q, k);
    var rest := q[k + 1..];
    assert EscapedPrefix(q, k + 1) == p + [q[k]];
    assert q[k..] == [q[k]] + rest;
    assert m == m[..i] + m[i..];
    ConcatAssoc(p, [q[k]], rest);
  }

  // ---------------------------------------------------------------------
  // Properties
  // ---------------------------------------------------------------------

  /** Every quote of an escaped prefix but the first character has a
      backslash before it. */
  lemma {:induction false} EscapedPrefixEscapes(q: Str8, k: nat)
    requires 1 <= k <= |q|
    ensures forall j :: 0 < j < |EscapedPrefix(q, k)| && EscapedPrefix(q, k)[j] == '"' ==>
      EscapedPrefix(q, k)[j - 1] == '\\'
    decreases k
  {
    if k > 1 {
      var p := EscapedPrefix(q, k - 1);
      EscapedPrefixEscapes(q, k - 1);
      EscapedPrefixLast(q, k - 1);
      var b := QuoteEsc(q[k - 2], q[k - 1]);
      var r := p + b;
      forall j | 0 < j < |r| && r[j] == '"'
        ensures r[j - 1] == '\\'
      {
        if j < |p| {
          assert r[j] == p[j] && r[j - 1] == p[j - 1];
        } else if j == |p| {
          assert r[j - 1] == q[k - 2];
        }
      }
    }
  }

  /** The result is quoted at both ends. */
  lemma MungedQuoted(msg: Str8)
    requires |msg| >= 1 && msg != ['"']
    ensures var r := Munged(msg); |r| >= 2 && r[0] == '"' && r[|r| - 1] == '"'
  {
    var q := Quoted(msg);
    QuotedLong(msg);
    EscapedPrefixFirst(q, |q| - 1);
  }

  lemma {:induction false} EscapedPrefixFirst(q: Str8, k: nat)
    requires 1 <= k <= |q|
    ensures EscapedPrefix(q, k)[0] == q[0]
    decreases k
  {
    if k > 1 {
      EscapedPrefixFirst(q, k - 1);
    }
  }

  /** Every quote inside the result has a backslash before it. */
  lemma MungedEscapes(msg: Str8)
    requires |msg| >= 1 && msg != ['"']
    ensures var r := Munged(msg);
      forall j :: 0 < j < |r| - 1 && r[j] == '"' ==> r[j - 1] == '\\'
  {
    var q := Quoted(msg);
    QuotedLong(msg);
    var p := EscapedPrefix(q, |q| - 1);
    EscapedPrefixEscapes(q, |q| - 1);
    var r := p + [q[|q| - 1]];
    assert forall j :: 0 <= j < |p| ==> r[j] == p[j];
  }

  /** A quoted message whose inner quotes are all escaped. */
  predicate WellQuoted(m: Str8)
  {
    |m| >= 2 && m[0] == '"' && m[|m| - 1] == '"' &&
    forall j :: 0 < j < |m| - 1 && m[j] == '"' ==> m[j - 1] == '\\'
  }

  lemma {:induction false} EscapedPrefixOfWellQuoted(m: Str8, k: nat)
    requires WellQuoted(m) && 1 <= k <= |m| - 1
    ensures EscapedPrefix(m, k) == m[..k]
    decreases k
  {
    if k > 1 {
      EscapedPrefixOfWellQuoted(m, k - 1);
      assert m[k - 1] == '"' ==> m[k - 2] == '\\';
      assert m[..k] == m[..k - 1] + [m[k - 1]];
    }
  }

  /** A message that is already well quoted is left unchanged. */
  lemma MungedKeepsWellQuoted(m: Str8)
    requires WellQuoted(m)
    ensures m != ['"'] && Munged(m) == m
  {
    assert Quoted(m) == m;
    EscapedPrefixOfWellQuoted(m, |m| - 1);
    assert m[..|m| - 1] + [m[|m| - 1]] == m;
  }

  /** So munge_error_message is idempotent. */
  lemma MungedIdempotent(msg: Str8)
    requires |msg| >= 1 && msg != ['"']
    ensures Munged(msg) != ['"'] && Munged(Munged(msg)) == Munged(msg)
  {
    MungedQuoted(msg);
    MungedEscapes(msg);
    MungedKeepsWellQuoted(Munged(msg));
  }

  /** A message without quotes gets exactly the two enclosing quotes. */
  lemma MungedPlain(msg: Str8)
    requires |msg| >= 1 && '"' !in msg
    ensures msg != ['"'] && Munged(msg) == ['"'] + msg + ['"']
  {
    var q := ['"'] + msg + ['"'];
    assert Quoted(msg) == q;
    EscapedPrefixPlain(q, |q| - 1);
    assert q[..|q| - 1] + [q[|q| - 1]] == q;
  }

  lemma {:induction false} EscapedPrefixPlain(q: Str8, k: nat)
    requires 1 <= k <= |q| && forall j :: 0 < j < k ==> q[j] != '"'
    ensures EscapedPrefix(q, k) == q[..k]
    decreases k
  {
    if k > 1 {
      EscapedPrefixPlain(q, k - 1);
      assert q[..k] == q[..k - 1] + [q[k - 1]];
    }
  }
}
