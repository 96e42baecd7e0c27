/** XML entity escaping of identifiers: entity, id2xml and xml2id
    (escaping.cc:224-287). */
module XmlEscaping {
  import opened Wrappers
  import opened Escaping

  /** The default `not_allowed` set of id2xml (escaping.cc:242). */
  const DefaultNotAllowed: Str8 := "><&'\""

  /** The five characters `entity` knows. */
  predicate Special(c: Char8)
  {
    c == '>' || c == '<' || c == '&' || c == '\'' || c == '"'
  }

  /** An XML entity reference: `&`, a name without `&` or `;`, then `;`. */
  predicate EntityShaped(e: Str8)
  {
    |e| >= 2 && e[0] == '&' && e[|e| - 1] == ';' &&
    forall j :: 1 <= j < |e| - 1 ==> e[j] != '&' && e[j] != ';'
  }

  /** The five entities `entity` writes (escaping.cc:227-231). */
  const Gt: Str8 := "&gt;"
  const Lt: Str8 := "&lt;"
  const Amp: Str8 := "&amp;"
  const Apos: Str8 := "&apos;"
  const Quot: Str8 := "&quot;"

  /** `entity(c)`: the entity of one of the five special characters; any
      other character is an internal error. */
  function Entity(c: Char8): (r: Result<Str8>)
    ensures r.Ok? <==> Special(c)
    ensures r.Err? ==> r.error.InternalErr?
  {
    if c == '>' then Ok(Gt)
    else if c == '<' then Ok(Lt)
    else if c == '&' then Ok(Amp)
    else if c == '\'' then Ok(Apos)
    else if c == '"' then Ok(Quot)
    else Err(InternalErr("Unrecognized character."))
  }

  /** Every entity is a well-formed entity reference of at least four
      characters, and only its `&` is special. */
  lemma EntityShape(c: Char8)
    requires Special(c)
    ensures EntityShaped(Entity(c).value) && |Entity(c).value| >= 4
    ensures forall u :: 1 <= u < |Entity(c).value| ==> !Special(Entity(c).value[u])
  {
  }

  /** Distinct characters have distinct entities, which is what lets xml2id
      undo id2xml. */
  lemma EntityInjective(c: Char8, d: Char8)
    requires Special(c) && Special(d) && Entity(c).value == Entity(d).value
    ensures c == d
  {
    var e, f := Entity(c).value, Entity(d).value;
    assert e[1] == f[1] && e[2] == f[2];
  }

  lemma DefaultNotAllowedIsSpecial(c: Char8)
    ensures c in DefaultNotAllowed <==> Special(c)
  {
  }

  // ---------------------------------------------------------------------
  // id2xml
  // ---------------------------------------------------------------------

  /** What id2xml does to one character. */
  function XmlEscape(notAllowed: Str8): Char8 -> Str8
  {
    (c: Char8) => if c in notAllowed && Special(c) then Entity(c).value else [c]
  }

  /** No character after the `&` of the entity of `c` is in `notAllowed`.
      id2xml rescans those characters, and calls `entity` on any of them
      that is in the set. */
  predicate TailOk(c: Char8, notAllowed: Str8)
    requires Special(c)
  {
    forall u :: 1 <= u < |Entity(c).value| ==> Entity(c).value[u] !in notAllowed
  }

  /** id2xml does not throw on the character at `t`. */
  predicate EscapableAt(s: Str8, notAllowed: Str8, t: nat)
    requires t < |s|
  {
    s[t] in notAllowed ==> Special(s[t]) && TailOk(s[t], notAllowed)
  }

  /** The inputs on which id2xml does not throw. */
  predicate XmlEscapable(s: Str8, notAllowed: Str8)
  {
    forall t :: 0 <= t < |s| ==> EscapableAt(s, notAllowed, t)
  }

  /** With the default set id2xml never throws. */
  lemma DefaultXmlEscapable(s: Str8)
    ensures XmlEscapable(s, DefaultNotAllowed)
  {
    forall t | 0 <= t < |s|
      ensures EscapableAt(s, DefaultNotAllowed, t)
    {
      DefaultNotAllowedIsSpecial(s[t]);
      if Special(s[t]) {
        var e := Entity(s[t]).value;
        EntityShape(s[t]);
        forall u | 1 <= u < |e|
          ensures e[u] !in DefaultNotAllowed
        {
          DefaultNotAllowedIsSpecial(e[u]);
        }
      }
    }
  }

  /** The input is escapable up to `k`. */
  ghost predicate EscapableUpTo(input: Str8, na: Str8, k: nat)
    requires k <= |input|
    decreases k
  {
    k == 0 || (EscapableUpTo(input, na, k - 1) && EscapableAt(input, na, k - 1))
  }

  lemma {:induction false} EscapableExtend(input: Str8, na: Str8, k: nat, d: nat)
    requires k + d <= |input| && EscapableUpTo(input, na, k)
    requires forall t :: k <= t < k + d ==> input[t] !in na
    ensures EscapableUpTo(input, na, k + d)
    decreases d
  {
    if d > 0 {
      EscapableExtend(input, na, k, d - 1);
      assert input[k + d - 1] !in na;
    }
  }

  lemma {:induction false} EscapableUpToAll(input: Str8, na: Str8, k: nat)
    requires k <= |input| && EscapableUpTo(input, na, k)
    ensures forall t :: 0 <= t < k ==> EscapableAt(input, na, t)
    decreases k
  {
    if k > 0 {
      EscapableUpToAll(input, na, k - 1);
    }
  }

  /** The state of the id2xml loop.  The input is escaped up to `k`; when
      the last character escaped was special, the search position `i` is
      just after its `&`, `back` characters before the end of its entity. */
  ghost predicate Id2XmlState(input: Str8, na: Str8, k: nat, back: nat, s: Str8, i: nat)
  {
    Id2XmlText(input, na, k, back, s, i) && Id2XmlChecked(input, na, k, back) &&
    Id2XmlTail(input, na, k, back, s, i)
  }

  ghost predicate Id2XmlText(input: Str8, na: Str8, k: nat, back: nat, s: Str8, i: nat)
  {
    k <= |input| &&
    s == Expand(input[..k], XmlEscape(na)) + input[k..] &&
    i + back == |Expand(input[..k], XmlEscape(na))|
  }

  /** What the loop has checked of the characters escaped so far: all of
      them, except that the entity written last is still being searched. */
  ghost predicate Id2XmlChecked(input: Str8, na: Str8, k: nat, back: nat)
    requires k <= |input|
  {
    if back == 0 then EscapableUpTo(input, na, k)
    else k > 0 && EscapableUpTo(input, na, k - 1)
  }

  ghost predicate Id2XmlTail(input: Str8, na: Str8, k: nat, back: nat, s: Str8, i: nat)
    requires k <= |input|
  {
    back > 0 ==>
      k > 0 && input[k - 1] in na && Special(input[k - 1]) &&
      back == |Entity(input[k - 1]).value| - 1 &&
      i + back <= |s| && s[i..i + back] == Entity(input[k - 1]).value[1..]
  }

  /** What the search from `i` to `j` tells about the entity written last:
      a hit inside it is not special, and no hit in it means it is checked. */
  lemma TailFacts(input: Str8, na: Str8, k: nat, back: nat, s: Str8, i: nat, j: nat)
    requires k <= |input| && Id2XmlTail(input, na, k, back, s, i) == true
    requires i <= j <= |s|
    requires forall q :: i <= q < j ==> s[q] !in na
    ensures j < i + back ==> !Special(s[j])
    ensures back > 0 && i + back <= j ==> TailOk(input[k - 1], na)
  {
    if back > 0 {
      var last := Entity(input[k - 1]).value;
      EntityShape(input[k - 1]);
      if j < i + back {
        assert s[j] == s[i..i + back][j - i] == last[j - i + 1];
      } else {
        forall u | 1 <= u < |last|
          ensures last[u] !in na
        {
          assert last[u] == s[i..i + back][u - 1] == s[i + u - 1];
        }
      }
    }
  }

  lemma CheckedStep(input: Str8, na: Str8, k: nat, back: nat, d: nat, k': nat, back': nat)
    requires k + d < |input| && Id2XmlChecked(input, na, k, back) == true
    requires back > 0 ==> Special(input[k - 1]) && TailOk(input[k - 1], na)
    requires forall t :: k <= t < k + d ==> input[t] !in na
    requires k' == k + d + 1 && back' > 0
    ensures Id2XmlChecked(input, na, k', back')
  {
    if back > 0 {
      assert EscapableAt(input, na, k - 1);
    }
    EscapableExtend(input, na, k, d);
  }

  /** The entity just written is what the search has to go through next. */
  lemma TailStep(input: Str8, na: Str8, k': nat, back': nat, s: Str8, p: nat, s': Str8)
    requires 0 < k' <= |input| && p < |s| && input[k' - 1] == s[p] && s[p] in na && Special(s[p])
    requires back' == |Entity(s[p]).value| - 1
    requires s' == s[..p] + Entity(s[p]).value + s[p + 1..]
    ensures Id2XmlTail(input, na, k', back', s', p + 1)
  {
    var ent := Entity(s[p]).value;
    EntityShape(s[p]);
    assert s'[p + 1..p + 1 + back'] == ent[1..];
  }

  /** The text half of a step of id2xml: the entity replaces the found
      character, which is the next character of the input not yet escaped
      that lies in `na`. */
  lemma TextStep(input: Str8, na: Str8, k: nat, back: nat, s: Str8, i: nat, p: nat, d: nat,
                  k': nat, back': nat, s': Str8)
    requires Id2XmlText(input, na, k, back, s, i) == true
    requires FindFirstOf(s, na, i) == Some(p) && Special(s[p]) && p == i + back + d
    requires k' == k + d + 1 && back' == |Entity(s[p]).value| - 1
    requires s' == s[..p] + Entity(s[p]).value + s[p + 1..]
    ensures 0 < k' <= |input| && input[k' - 1] == s[p]
    ensures forall t :: k <= t < k + d ==> input[t] !in na
    ensures Id2XmlText(input, na, k', back', s', p + 1)
  {
    var f := XmlEscape(na);
    var e := Expand(input[..k], f);
    assert s == e + input[k..] && p == |e| + d;
    assert k + d < |input| && s[p] == input[k + d];
    KeptNotIn(input, k, e, s, d, na);
    KeptFixed(input, na, k, d);
    var r := Entity(s[p]).value;
    assert r == f(input[k + d]);
    RewriteStep(input, k, d, f, s, p, r);
  }

  /** Characters outside `na` are copied as they are. */
  lemma KeptFixed(input: Str8, na: Str8, k: nat, d: nat)
    requires k + d <= |input|
    requires forall t :: k <= t < k + d ==> input[t] !in na
    ensures forall q :: k <= q < k + d ==> XmlEscape(na)(input[q]) == [input[q]]
  {
  }

  /** Nothing is escaped before the loop starts. */
  lemma Id2XmlInit(input: Str8, na: Str8)
    ensures Id2XmlState(input, na, 0, 0, input, 0)
  {
    assert input[..0] == [];
  }

  /** id2xml found a character of `na` at `p` and it is special: the search
      went past the entity written last, and the loop state is restored
      after the replacement. */
  lemma Id2XmlStep(input: Str8, na: Str8, k: nat, back: nat, s: Str8, i: nat, p: nat, s': Str8)
      returns (k': nat, back': nat)
    requires Id2XmlState(input, na, k, back, s, i)
    requires FindFirstOf(s, na, i) == Some(p) && Special(s[p])
    requires s' == s[..p] + Entity(s[p]).value + s[p + 1..]
    ensures k < k' <= |input|
    ensures Id2XmlState(input, na, k', back', s', p + 1) == true
  {
    TailFacts(input, na, k, back, s, i, p);
    var d := p - i - back;
    EntityShape(s[p]);
    k', back' := k + d + 1, |Entity(s[p]).value| - 1;
    TextStep(input, na, k, back, s, i, p, d, k', back', s');
    CheckedStep(input, na, k, back, d, k', back');
    TailStep(input, na, k', back', s, p, s');
  }

  /** id2xml found a character of `na` at `p` that is not special: the input
      is not escapable, either because it holds that character or because
      an entity written earlier holds it. */
  lemma Id2XmlFails(input: Str8, na: Str8, k: nat, back: nat, s: Str8, i: nat, p: nat)
    requires Id2XmlState(input, na, k, back, s, i)
    requires FindFirstOf(s, na, i) == Some(p) && !Special(s[p])
    ensures !XmlEscapable(input, na)
  {
    var E := Expand(input[..k], XmlEscape(na));
    TailFacts(input, na, k, back, s, i, p);
    if p < i + back {
      var last := Entity(input[k - 1]).value;
      assert s[p] == s[i..i + back][p - i] == last[p - i + 1];
      assert !EscapableAt(input, na, k - 1);
    } else {
      var d := p - |E|;
      assert s[p] == input[k + d];
      assert !EscapableAt(input, na, k + d);
    }
  }

  /** id2xml found no more characters of `na`. */
  lemma Id2XmlDone(input: Str8, na: Str8, k: nat, back: nat, s: Str8, i: nat)
    requires Id2XmlState(input, na, k, back, s, i)
    requires FindFirstOf(s, na, i) == None
    ensures XmlEscapable(input, na)
    ensures s == Expand(input, XmlEscape(na))
  {
    TailFacts(input, na, k, back, s, i, |s|);
    DoneRest(input, na, k, back, s, i);
    DoneText(input, na, k, s);
    DoneChecked(input, na, k, back);
  }

  /** Nothing of `na` is left in the part of the input not yet escaped. */
  lemma DoneRest(input: Str8, na: Str8, k: nat, back: nat, s: Str8, i: nat)
    requires Id2XmlText(input, na, k, back, s, i)
    requires FindFirstOf(s, na, i) == None
    ensures forall q :: k <= q < |input| ==> input[q] !in na
  {
    KeptNotIn(input, k, Expand(input[..k], XmlEscape(na)), s, |input| - k, na);
  }

  lemma DoneText(input: Str8, na: Str8, k: nat, s: Str8)
    requires k <= |input| && s == Expand(input[..k], XmlEscape(na)) + input[k..]
    requires forall q :: k <= q < |input| ==> input[q] !in na
    ensures s == Expand(input, XmlEscape(na))
  {
    ExpandFinish(input, k, XmlEscape(na));
  }

  lemma DoneChecked(input: Str8, na: Str8, k: nat, back: nat)
    requires k <= |input| && Id2XmlChecked(input, na, k, back)
    requires back > 0 ==> Special(input[k - 1]) && TailOk(input[k - 1], na)
    requires forall q :: k <= q < |input| ==> input[q] !in na
    ensures XmlEscapable(input, na)
  {
    if back > 0 {
      assert EscapableAt(input, na, k - 1);
    }
    EscapableExtend(input, na, k, |input| - k);
    EscapableUpToAll(input, na, |input|);
  }

  /** `id2xml(in, not_allowed)`: every character of `not_allowed` becomes its
      entity, and the call throws InternalErr exactly when the input or one
      of the entities written holds a character of `not_allowed` that has no
      entity. */
  method Id2Xml(input: Str8, notAllowed: Str8) returns (r: Result<Str8>)
    ensures r.Ok? <==> XmlEscapable(input, notAllowed)
    ensures r.Ok? ==> r.value == Expand(input, XmlEscape(notAllowed))
    ensures r.Err? ==> r.error.InternalErr?
  {
    var s := input;
    var i: nat := 0;
    ghost var k: nat := 0;
    ghost var back: nat := 0;
    Id2XmlInit(input, notAllowed);
    var found := FindFirstOf(s, notAllowed, i);
    while found.Some?
      invariant k <= |input|
      // compared with `true` so that the state is checked as one fact
      invariant Id2XmlState(input, notAllowed, k, back, s, i) == true
      invariant found == FindFirstOf(s, notAllowed, i)
      decreases |input| - k
    {
      var p := found.value;
      var e := Entity(s[p]);
      if e.Err? {
        Id2XmlFails(input, notAllowed, k, back, s, i, p);
        return Err(e.error);
      }
      var s' := s[..p] + e.value + s[p + 1..];
      k, back := Id2XmlStep(input, notAllowed, k, back, s, i, p, s');
      s, i := s', p + 1;
      found := FindFirstOf(s, notAllowed, i);
    }
    Id2XmlDone(input, notAllowed, k, back, s, i);
    return Ok(s);
  }

  // ---------------------------------------------------------------------
  // xml2id
  // ---------------------------------------------------------------------

  /** One loop of xml2id: each occurrence of `pat`, from the left, becomes
      `rep`, and the search resumes AT the replacement. */
  function Rescan(t: Str8, pat: Str8, rep: Str8): (r: Str8)
    requires |rep| < |pat|
    ensures |r| <= |t|
    decreases |t|
  {
    if t == [] then []
    else if MatchesAt(t, pat, 0) then Rescan(rep + t[|pat|..], pat, rep)
    else [t[0]] + Rescan(t[1..], pat, rep)
  }

  /** The same loop with the search resuming AFTER the replacement. */
  function Once(t: Str8, pat: Str8, rep: Str8): (r: Str8)
    requires 0 < |pat|
    ensures |rep| <= |pat| ==> |r| <= |t|
    decreases |t|
  {
    if t == [] then []
    else if MatchesAt(t, pat, 0) then rep + Once(t[|pat|..], pat, rep)
    else [t[0]] + Once(t[1..], pat, rep)
  }

  lemma {:induction false} RescanSkip(s: Str8, a: nat, b: nat, pat: Str8, rep: Str8)
    requires |rep| < |pat|
    requires a <= b <= |s|
    requires forall q :: a <= q < b ==> !MatchesAt(s, pat, q)
    ensures Rescan(s[a..], pat, rep) == s[a..b] + Rescan(s[b..], pat, rep)
    decreases b - a
  {
    if a < b {
      var t := s[a..];
      assert t[0] == s[a] && t[1..] == s[a + 1..];
      assert !MatchesAt(s, pat, a);
      if a + |pat| <= |s| {
        assert t[0..|pat|] == s[a..a + |pat|];
      }
      assert !MatchesAt(t, pat, 0);
      assert Rescan(t, pat, rep) == [s[a]] + Rescan(s[a + 1..], pat, rep);
      RescanSkip(s, a + 1, b, pat, rep);
      assert s[a..b] == [s[a]] + s[a + 1..b];
    }
  }

  lemma {:induction false} OnceSkip(s: Str8, a: nat, b: nat, pat: Str8, rep: Str8)
    requires 0 < |pat|
    requires a <= b <= |s|
    requires forall q :: a <= q < b ==> !MatchesAt(s, pat, q)
    ensures Once(s[a..], pat, rep) == s[a..b] + Once(s[b..], pat, rep)
    decreases b - a
  {
    if a < b {
      var t := s[a..];
      assert t[0] == s[a] && t[1..] == s[a + 1..];
      assert !MatchesAt(s, pat, a);
      if a + |pat| <= |s| {
        assert t[0..|pat|] == s[a..a + |pat|];
      }
      assert !MatchesAt(t, pat, 0);
      assert Once(t, pat, rep) == [s[a]] + Once(s[a + 1..], pat, rep);
      OnceSkip(s, a + 1, b, pat, rep);
      assert s[a..b] == [s[a]] + s[a + 1..b];
    }
  }

  /** One replacement of the xml2id loop, at the first match `p` at or
      after `i`, leaves the decoded result unchanged. */
  lemma RescanStep(s: Str8, i: nat, p: nat, pat: Str8, rep: Str8, s': Str8)
    requires |rep| < |pat|
    requires i <= p && MatchesAt(s, pat, p)
    requires forall q :: i <= q < p ==> !MatchesAt(s, pat, q)
    requires s' == s[..p] + rep + s[p + |pat|..]
    ensures s'[..p] + Rescan(s'[p..], pat, rep) == s[..i] + Rescan(s[i..], pat, rep)
  {
    var r := Rescan(s[p..], pat, rep);
    RescanSkip(s, i, p, pat, rep);
    RescanAtMatch(s, p, pat, rep);
    SpliceSlices(s, p, |pat|, rep);
    assert Rescan(s'[p..], pat, rep) == r;
    assert s[..p] == s[..i] + s[i..p];
    ConcatAssoc(s[..i], s[i..p], r);
  }

  /** A match at `p` is replaced and the search goes on at `p`. */
  lemma RescanAtMatch(s: Str8, p: nat, pat: Str8, rep: Str8)
    requires |rep| < |pat| && MatchesAt(s, pat, p)
    ensures Rescan(s[p..], pat, rep) == Rescan(rep + s[p + |pat|..], pat, rep)
  {
    var t := s[p..];
    assert t[0..|pat|] == s[p..p + |pat|];
    assert t[|pat|..] == s[p + |pat|..];
  }

  lemma OnceStep(s: Str8, i: nat, p: nat, pat: Str8, rep: Str8)
    requires 0 < |pat|
    requires i <= p && MatchesAt(s, pat, p)
    requires forall q :: i <= q < p ==> !MatchesAt(s, pat, q)
    ensures var s' := s[..p] + rep + s[p + |pat|..];
      s'[..p + |rep|] + Once(s'[p + |rep|..], pat, rep) == s[..i] + Once(s[i..], pat, rep)
  {
    var s' := s[..p] + rep + s[p + |pat|..];
    OnceSkip(s, i, p, pat, rep);
    var t := s[p..];
    assert t[0..|pat|] == s[p..p + |pat|];
    assert t[|pat|..] == s[p + |pat|..];
    assert s'[..p + |rep|] == s[..i] + s[i..p] + rep;
    assert s'[p + |rep|..] == t[|pat|..];
    assert MatchesAt(t, pat, 0);
    assert Once(t, pat, rep) == rep + Once(t[|pat|..], pat, rep);
    ConcatAssoc(s[..i] + s[i..p], rep, Once(t[|pat|..], pat, rep));
    ConcatAssoc(s[..i], s[i..p], rep + Once(t[|pat|..], pat, rep));
  }

  lemma RescanDone(s: Str8, i: nat, pat: Str8, rep: Str8)
    requires |rep| < |pat| && i <= |s|
    requires forall q :: i <= q ==> !MatchesAt(s, pat, q)
    ensures s[..i] + Rescan(s[i..], pat, rep) == s
  {
    RescanSkip(s, i, |s|, pat, rep);
    assert s[..i] + s[i..|s|] == s;
  }

  lemma OnceDone(s: Str8, i: nat, pat: Str8, rep: Str8)
    requires 0 < |pat| && i <= |s|
    requires forall q :: i <= q ==> !MatchesAt(s, pat, q)
    ensures s[..i] + Once(s[i..], pat, rep) == s
  {
    OnceSkip(s, i, |s|, pat, rep);
    assert s[..i] + s[i..|s|] == s;
  }

  /** The xml2id loop `while ((i = in.find(pat, i)) != npos)
      in.replace(i, |pat|, rep);`. */
  method ReplaceAll(input: Str8, pat: Str8, rep: Str8) returns (s: Str8)
    requires |rep| < |pat|
    ensures s == Rescan(input, pat, rep)
  {
    s := input;
    var i: nat := 0;
    var found := Find(s, pat, i);
    while found.Some?
      invariant i <= |s|
      invariant s[..i] + Rescan(s[i..], pat, rep) == Rescan(input, pat, rep)
      invariant found == Find(s, pat, i)
      decreases |s| - i
    {
      var p := found.value;
      var s' := s[..p] + rep + s[p + |pat|..];
      RescanStep(s, i, p, pat, rep, s');
      s := s';
      i := p;
      found := Find(s, pat, i);
    }
    RescanDone(s, i, pat, rep);
  }

  /** The loop with the search resuming after the replacement. */
  method ReplaceEach(input: Str8, pat: Str8, rep: Str8) returns (s: Str8)
    requires 0 < |pat|
    ensures s == Once(input, pat, rep)
  {
    s := input;
    var i: nat := 0;
    var found := Find(s, pat, i);
    while found.Some?
      invariant i <= |s|
      invariant s[..i] + Once(s[i..], pat, rep) == Once(input, pat, rep)
      invariant found == Find(s, pat, i)
      decreases |s| - i
    {
      var p := found.value;
      OnceStep(s, i, p, pat, rep);
      s := s[..p] + rep + s[p + |pat|..];
      i := p + |rep|;
      found := Find(s, pat, i);
    }
    OnceDone(s, i, pat, rep);
  }

  /** xml2id as written: the five loops in source order, each resuming at
      its replacement. */
  function XmlDecodeAsWritten(t: Str8): Str8
  {
    var t1 := Rescan(t, Gt, ['>']);
    var t2 := Rescan(t1, Lt, ['<']);
    var t3 := Rescan(t2, Amp, ['&']);
    var t4 := Rescan(t3, Apos, ['\'']);
    Rescan(t4, Quot, ['"'])
  }

  /** xml2id as intended: `&amp;` is decoded last, and only once, so that an
      `&` it produces never starts another entity. */
  function XmlDecode(t: Str8): Str8
  {
    var t1 := Rescan(t, Gt, ['>']);
    var t2 := Rescan(t1, Lt, ['<']);
    var t3 := Rescan(t2, Apos, ['\'']);
    var t4 := Rescan(t3, Quot, ['"']);
    Once(t4, Amp, ['&'])
  }

  method Xml2IdAsWritten(input: Str8) returns (s: Str8)
    ensures s == XmlDecodeAsWritten(input)
  {
    s := ReplaceAll(input, Gt, ['>']);
    s := ReplaceAll(s, Lt, ['<']);
    s := ReplaceAll(s, Amp, ['&']);
    s := ReplaceAll(s, Apos, ['\'']);
    s := ReplaceAll(s, Quot, ['"']);
  }

  method Xml2Id(input: Str8) returns (s: Str8)
    ensures s == XmlDecode(input)
  {
    s := ReplaceAll(input, Gt, ['>']);
    s := ReplaceAll(s, Lt, ['<']);
    s := ReplaceAll(s, Apos, ['\'']);
    s := ReplaceAll(s, Quot, ['"']);
    s := ReplaceEach(s, Amp, ['&']);
  }

  // ---------------------------------------------------------------------
  // Decoding an escaped string one kind of entity at a time
  // ---------------------------------------------------------------------

  /** The position of a special character in the order in which xml2id (as
      intended) turns the entities back: `>`, `<`, `'`, `"`, then `&`. */
  function Rank(c: Char8): nat
  {
    if c == '>' then 0 else if c == '<' then 1 else if c == '\'' then 2
    else if c == '"' then 3 else 4
  }

  /** A character of an escaped string once the first `n` kinds of entities
      have been turned back. */
  function Staged(c: Char8, n: nat): Str8
  {
    if Special(c) && n <= Rank(c) then Entity(c).value else [c]
  }

  function StagedAll(s: Str8, n: nat): Str8
  {
    if s == [] then [] else Staged(s[0], n) + StagedAll(s[1..], n)
  }

  /** What each character of an escaped string has become. */
  predicate Block(b: Str8)
  {
    (|b| == 1 && b[0] != '&') || EntityShaped(b)
  }

  /** An entity-shaped pattern matches nowhere inside a different block. */
  lemma BlockNoMatch(b: Str8, rest: Str8, pat: Str8)
    requires Block(b) && EntityShaped(pat) && b != pat
    ensures forall j :: 0 <= j < |b| ==> !MatchesAt(b + rest, pat, j)
  {
    var s := b + rest;
    forall j | 0 <= j < |b|
      ensures !MatchesAt(s, pat, j)
    {
      if j > 0 || !EntityShaped(b) {
        assert s[j] == b[j] != '&';
        MismatchAt(s, pat, j, 0);
      } else if |pat| < |b| {
        assert s[|pat| - 1] == b[|pat| - 1] != ';';
        MismatchAt(s, pat, 0, |pat| - 1);
      } else if |pat| > |b| {
        assert pat[|b| - 1] != ';';
        assert s[|b| - 1] == b[|b| - 1];
        MismatchAt(s, pat, 0, |b| - 1);
      } else {
        assert s[..|pat|] == b;
      }
    }
  }

  lemma RescanBlock(b: Str8, rest: Str8, pat: Str8, rep: Str8)
    requires Block(b) && EntityShaped(pat) && b != pat && |rep| < |pat|
    ensures Rescan(b + rest, pat, rep) == b + Rescan(rest, pat, rep)
  {
    var s := b + rest;
    BlockNoMatch(b, rest, pat);
    RescanSkip(s, 0, |b|, pat, rep);
    assert s[0..] == s && s[..|b|] == b && s[|b|..] == rest;
  }

  lemma OnceBlock(b: Str8, rest: Str8, pat: Str8, rep: Str8)
    requires Block(b) && EntityShaped(pat) && b != pat
    ensures Once(b + rest, pat, rep) == b + Once(rest, pat, rep)
  {
    var s := b + rest;
    BlockNoMatch(b, rest, pat);
    OnceSkip(s, 0, |b|, pat, rep);
    assert s[0..] == s && s[..|b|] == b && s[|b|..] == rest;
  }

  lemma StagedBlock(c: Char8, n: nat)
    requires n <= 4 || c != '&'
    ensures Block(Staged(c, n))
  {
    if Special(c) && n <= Rank(c) {
      EntityShape(c);
    }
  }

  /** The whole pattern decodes to its replacement, and the search resumes
      at the replacement. */
  lemma RescanMatch(pat: Str8, rest: Str8, rep: Str8)
    requires |rep| < |pat|
    ensures Rescan(pat + rest, pat, rep) == Rescan(rep + rest, pat, rep)
  {
    var s := pat + rest;
    assert s[0..|pat|] == pat && s[|pat|..] == rest;
  }

  lemma OnceMatch(pat: Str8, rest: Str8, rep: Str8)
    requires 0 < |pat|
    ensures Once(pat + rest, pat, rep) == rep + Once(rest, pat, rep)
  {
    var s := pat + rest;
    assert s[0..|pat|] == pat && s[|pat|..] == rest;
  }

  /** A one-character replacement other than `&` is not looked at again. */
  lemma RescanLone(d: Char8, rest: Str8, pat: Str8, rep: Str8)
    requires |rep| < |pat| && EntityShaped(pat) && d != '&'
    ensures Rescan([d] + rest, pat, rep) == [d] + Rescan(rest, pat, rep)
  {
    var s := [d] + rest;
    assert s[0] == d && s[1..] == rest;
    MismatchAt(s, pat, 0, 0);
  }

  /** Only the entity of `d` is the entity of `d`. */
  lemma StagedIsEntity(c: Char8, n: nat, d: Char8)
    requires Special(d) && Staged(c, n) == Entity(d).value
    ensures c == d && n <= Rank(d)
  {
    EntityShape(d);
    assert Special(c) && n <= Rank(c);
    EntityInjective(c, d);
  }

  /** One loop of xml2id turns the entities of the `n`-th kind back. */
  lemma {:induction false} RescanStage(s: Str8, n: nat, d: Char8)
    requires Special(d) && d != '&' && Rank(d) == n
    ensures Rescan(StagedAll(s, n), Entity(d).value, [d]) == StagedAll(s, n + 1)
  {
    if s != [] {
      var pat := Entity(d).value;
      EntityShape(d);
      var c := s[0];
      var b := Staged(c, n);
      var rest := StagedAll(s[1..], n);
      RescanStage(s[1..], n, d);
      if b == pat {
        StagedIsEntity(c, n, d);
        RescanMatch(pat, rest, [d]);
        RescanLone(d, rest, pat, [d]);
      } else {
        StagedBlock(c, n);
        RescanBlock(b, rest, pat, [d]);
        assert Staged(c, n + 1) == b;
      }
    }
  }

  /** The final, non-rescanning loop turns the entities of `&` back. */
  lemma {:induction false} OnceStage(s: Str8)
    ensures Once(StagedAll(s, 4), Amp, ['&']) == StagedAll(s, 5)
  {
    if s != [] {
      var pat := Entity('&').value;
      EntityShape('&');
      var c := s[0];
      var b := Staged(c, 4);
      var rest := StagedAll(s[1..], 4);
      OnceStage(s[1..]);
      if b == pat {
        StagedIsEntity(c, 4, '&');
        OnceMatch(pat, rest, ['&']);
      } else {
        StagedBlock(c, 4);
        OnceBlock(b, rest, pat, ['&']);
        assert Staged(c, 5) == b;
      }
    }
  }

  /** Without `&` in the string, the as-written `&amp;` loop finds nothing
      once `>` and `<` are decoded. */
  lemma {:induction false} RescanAmpIdle(s: Str8)
    requires '&' !in s
    ensures Rescan(StagedAll(s, 2), Amp, ['&']) == StagedAll(s, 2)
  {
    if s != [] {
      var pat := Entity('&').value;
      EntityShape('&');
      var b := Staged(s[0], 2);
      RescanAmpIdle(s[1..]);
      StagedBlock(s[0], 2);
      if b == pat {
        StagedIsEntity(s[0], 2, '&');
      }
      RescanBlock(b, StagedAll(s[1..], 2), pat, ['&']);
    }
  }

  lemma EscapeIsStaged(s: Str8)
    ensures Expand(s, XmlEscape(DefaultNotAllowed)) == StagedAll(s, 0)
  {
    if s != [] {
      DefaultNotAllowedIsSpecial(s[0]);
      EscapeIsStaged(s[1..]);
    }
  }

  /** Once all five kinds are decoded, the string is back. */
  lemma StagedDone(s: Str8)
    ensures StagedAll(s, 5) == s
  {
    if s != [] {
      StagedDone(s[1..]);
      assert s == [s[0]] + s[1..];
    }
  }

  lemma StagedKeeps(c: Char8, n: nat)
    requires (c != '&' && n >= 4) || n >= 5
    ensures Staged(c, n) == [c]
  {
  }

  /** Without `&`, decoding the first four kinds is enough. */
  lemma StagedDoneNoAmp(s: Str8)
    requires '&' !in s
    ensures StagedAll(s, 4) == s
  {
    if s != [] {
      var c, r := s[0], s[1..];
      assert s == [c] + r;
      StagedKeeps(c, 4);
      StagedDoneNoAmp(r);
    }
  }

  /** xml2id as intended undoes id2xml with the default set, for every string. */
  lemma XmlRoundTrip(s: Str8)
    ensures XmlDecode(Expand(s, XmlEscape(DefaultNotAllowed))) == s
  {
    var t0 := Expand(s, XmlEscape(DefaultNotAllowed));
    var t2 := FirstTwoStages(s);
    RescanStage(s, 2, '\'');
    var t3 := Rescan(t2, Apos, ['\'']);
    RescanStage(s, 3, '"');
    var t4 := Rescan(t3, Quot, ['"']);
    OnceStage(s);
    StagedDone(s);
    assert XmlDecode(t0) == Once(t4, Amp, ['&']);
  }

  /** xml2id as written undoes id2xml with the default set when the string
      holds no `&`. */
  lemma XmlRoundTripAsWritten(s: Str8)
    requires '&' !in s
    ensures XmlDecodeAsWritten(Expand(s, XmlEscape(DefaultNotAllowed))) == s
  {
    var t0 := Expand(s, XmlEscape(DefaultNotAllowed));
    var t2 := FirstTwoStages(s);
    RescanAmpIdle(s);
    var t3 := Rescan(t2, Amp, ['&']);
    RescanStage(s, 2, '\'');
    var t4 := Rescan(t3, Apos, ['\'']);
    RescanStage(s, 3, '"');
    StagedDoneNoAmp(s);
    assert XmlDecodeAsWritten(t0) == Rescan(t4, Quot, ['"']);
  }

  /** The input that shows the decoding order of xml2id as written: id2xml
      turns `&quot;` into `&amp;quot;`, whose `&amp;` is decoded before the
      `&quot;` loop runs, so the round trip yields `"`. */
  lemma XmlRoundTripAsWrittenFails()
    ensures XmlDecodeAsWritten(Expand(Quot, XmlEscape(DefaultNotAllowed))) == ['"']
  {
    var t2 := QuotEscapedThenGtLt();
    AmpQuotDecoded();
    QuotDecoded();
  }

  /** id2xml turns `&quot;` into `&amp;quot;`, which the `&gt;` and `&lt;`
      loops leave alone. */
  lemma QuotEscapedThenGtLt() returns (t2: Str8)
    ensures t2 == Rescan(Rescan(Expand(Quot, XmlEscape(DefaultNotAllowed)), Gt, ['>']), Lt, ['<'])
    ensures t2 == Amp + Quot[1..]
  {
    t2 := FirstTwoStages(Quot);
    StagedAmpQuot();
  }

  /** The `&gt;` and `&lt;` loops of xml2id, which both versions run first,
      on the result of id2xml. */
  lemma FirstTwoStages(s: Str8) returns (t2: Str8)
    ensures t2 == Rescan(Rescan(Expand(s, XmlEscape(DefaultNotAllowed)), Gt, ['>']), Lt, ['<'])
    ensures t2 == StagedAll(s, 2)
  {
    EscapeIsStaged(s);
    RescanStage(s, 0, '>');
    RescanStage(s, 1, '<');
    t2 := StagedAll(s, 2);
  }

  /** After two stages `&quot;` has become `&amp;quot;`. */
  lemma StagedAmpQuot()
    ensures StagedAll(Quot, 2) == Amp + Quot[1..]
  {
    var q: Str8 := Quot[1..];
    assert Quot[0] == '&';
    assert Staged('&', 2) == Amp;
    assert forall t :: 0 <= t < |q| ==> !Special(q[t]);
    StagedNoSpecial(q, 2);
  }

  /** The as-written `&amp;` loop turns `&amp;quot;` into `&quot;`. */
  lemma AmpQuotDecoded()
    ensures Rescan(Amp + Quot[1..], Amp, ['&']) == Quot
  {
    RescanMatch(Amp, Quot[1..], ['&']);
    assert ['&'] + Quot[1..] == Quot;
    EntityShape('"');
    EntityShape('&');
    RescanBlock(Quot, [], Amp, ['&']);
    assert Quot + [] == Quot;
  }

  /** The `&apos;` and `&quot;` loops then turn `&quot;` into `"`. */
  lemma QuotDecoded()
    ensures Rescan(Rescan(Quot, Apos, ['\'']), Quot, ['"']) == ['"']
  {
    EntityShape('"');
    EntityShape('\'');
    RescanBlock(Quot, [], Apos, ['\'']);
    assert Quot + [] == Quot;
    RescanMatch(Quot, [], ['"']);
    RescanLone('"', [], Quot, ['"']);
  }

  /** Characters that are not special are left as they are at every stage. */
  lemma StagedNoSpecial(s: Str8, n: nat)
    requires forall t :: 0 <= t < |s| ==> !Special(s[t])
    ensures StagedAll(s, n) == s
  {
    if s != [] {
      assert forall t :: 0 <= t < |s[1..]| ==> s[1..][t] == s[t + 1];
      StagedNoSpecial(s[1..], n);
      assert s == [s[0]] + s[1..];
    }
  }
}
