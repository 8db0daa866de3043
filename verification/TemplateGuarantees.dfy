/** What an owner who writes a template may rely on. */
module TemplateGuarantees {
  import opened Wrappers
  import opened Templates
  import opened TemplateSlices
  import opened TemplateRendering

  // ---- What the variables of a template are -----------------------------------------------

  /** A percent sign, small letters or underscores, a percent sign. */
  ghost predicate IsVariable(w: Text) {
    && |w| >= 3 && w[0] == '%' as int == w[|w| - 1]
    && forall i :: 0 < i < |w| - 1 ==> 'a' as int <= w[i] <= 'z' as int || w[i] == '_' as int
  }

  /** The length found at the head of a text is that of the only variable it can begin with. */
  lemma VariableAtHead(s: Text, n: nat)
    requires 0 < n <= |s|
    ensures VarLength(s) == n <==> IsVariable(s[..n])
  {
    if s[0] == PERCENT {
      var t := s[1..];
      if IsVariable(s[..n]) {
        assert forall i :: 0 <= i < n - 2 ==> t[i] == s[..n][i + 1];
        assert t[n - 2] == s[..n][n - 1];
        assert !IsName(PERCENT);
        assert NameLength(t) == n - 2;
      }
      if VarLength(s) == n {
        assert forall i :: 0 < i < n - 1 ==> s[..n][i] == t[i - 1];
      }
    }
  }

  ghost predicate InOrder(ms: seq<Match>, from: nat) {
    && (forall i :: 0 <= i < |ms| ==> from <= ms[i].start && IsVariable(ms[i].name))
    && forall i, j :: 0 <= i < j < |ms| ==> ms[i].end <= ms[j].start
  }

  lemma InOrderCons(m: Match, ms: seq<Match>, from: nat)
    requires from <= m.start && IsVariable(m.name) && InOrder(ms, m.end) && m.start <= m.end
    ensures InOrder([m] + ms, from)
  {
    var all := [m] + ms;
    assert forall i :: 0 < i < |all| ==> all[i] == ms[i - 1];
  }

  /** The matches are variables, in order and without overlap. */
  lemma {:induction false} MatchesInOrder(s: Text, base: nat)
    ensures InOrder(Matches(s, base), base)
    decreases |s|
  {
    hide VarLength, NameLength, Matches, IsVariable;
    if s == [] {
      MatchesNone(s, base, 0);
      assert Matches(s, base) == [] by { NoMatchAtEnd(base); }
    } else {
      MatchesHead(s, base);
      var n := VarLength(s);
      if n > 0 {
        VariableAtHead(s, n);
        MatchesInOrder(s[n..], base + n);
        InOrderCons(Match(base, base + n, s[..n]), Matches(s[n..], base + n), base);
      } else {
        MatchesInOrder(s[1..], base + 1);
      }
    }
  }

  lemma NoMatchAtEnd(base: nat)
    ensures Matches([], base) == []
  {}

  ghost predicate Covers(ms: seq<Match>, a: nat) {
    exists m :: m in ms && m.start <= a < m.end
  }

  lemma CoversCons(m: Match, ms: seq<Match>, a: nat)
    ensures Covers([m] + ms, a) <==> m.start <= a < m.end || Covers(ms, a)
  {
    assert m in [m] + ms;
    assert forall o :: o in ms ==> o in [m] + ms;
  }

  lemma SliceLater(s: Text, k: nat, a: nat, b: nat)
    requires k <= a <= b <= |s|
    ensures s[k..][a - k..b - k] == s[a..b]
  {}

  /** No variable is overlooked: wherever one stands, a match that begins no later covers its beginning. */
  lemma {:induction false} EveryVariableFound(s: Text, base: nat, a: nat, b: nat)
    requires base <= a < b <= base + |s| && IsVariable(s[a - base..b - base])
    ensures Covers(Matches(s, base), a)
    decreases |s|
  {
    hide VarLength, NameLength, Matches, IsVariable, Covers;
    MatchesHead(s, base);
    var n := VarLength(s);
    if a == base {
      assert s[0..b - base] == s[..b - base];
      VariableAtHead(s, b - base);
      CoversCons(Match(base, base + n, s[..n]), Matches(s[n..], base + n), a);
    } else if n == 0 {
      SliceLater(s, 1, a - base, b - base);
      EveryVariableFound(s[1..], base + 1, a, b);
    } else {
      CoversCons(Match(base, base + n, s[..n]), Matches(s[n..], base + n), a);
      if a >= base + n {
        SliceLater(s, n, a - base, b - base);
        EveryVariableFound(s[n..], base + n, a, b);
      }
    }
  }

  // ---- Success and failure ----------------------------------------------------------------

  lemma NothingBeyond<T>(a: set<T>, b: set<T>)
    ensures a - b == {} <==> a <= b
  {
    if a - b == {} {
      forall x | x in a
        ensures x in b
      {
        assert x !in a - b;
      }
    }
  }

  /** Rendering succeeds exactly when the template has text, its variables are allowed and have replacements, the result
      fits, and every entity lies in the text without splitting a variable. */
  lemma RenderSucceedsExactly(body: Text, stored: seq<Entity>, allowed: set<Text>, replacements: Replacements,
                              maxLength: int)
    ensures RenderError(body, stored, allowed, replacements, maxLength).None? <==>
            && body != [] && maxLength > 0 && Names(body) <= allowed && Names(body) <= replacements.Keys
            && |Encode(Render(body, replacements))| <= maxLength
            && forall i :: 0 <= i < |stored| ==> Placeable(Encode(body), stored[i])
  {
    hide Names, Encode, Render, Placeable, Spans, EncodeAll, EntitiesError;
    NothingBeyond(Names(body), allowed);
    NothingBeyond(Names(body), replacements.Keys);
    EntitiesAccepted(Encode(body), EncodeAll(replacements), stored, 0);
  }

  /** A template is accepted for storing exactly when it has text, fits, uses allowed variables and splits none. */
  lemma SourceAcceptedExactly(body: Text, stored: seq<Entity>, allowed: set<Text>, maxLength: int)
    ensures SourceError(body, stored, allowed, maxLength).None? <==>
            && body != [] && |Encode(body)| <= maxLength && Names(body) <= allowed
            && forall i :: 0 <= i < |stored| ==> Placeable(Encode(body), stored[i])
  {
    hide Names, Encode, Placeable, Spans, EncodeAll, EntitiesError, Itself;
    NothingBeyond(Names(body), allowed);
    EntitiesAccepted(Encode(body), EncodeAll(Itself(body)), stored, 0);
  }

  /** An accepted template fails to render only for want of a replacement or of room; no replacement, of whatever length
      and content, makes an entity split a variable or leave the text. */
  lemma AcceptedNeverSplits(body: Text, stored: seq<Entity>, allowed: set<Text>, maxSource: int,
                            replacements: Replacements, maxLength: int)
    requires SourceError(body, stored, allowed, maxSource).None?
    ensures RenderError(body, stored, allowed, replacements, maxLength)
            == if maxLength <= 0 then Some(BadMaxLength)
               else if !(Names(body) <= replacements.Keys)
                 then Some(MissingReplacements(Names(body) - replacements.Keys))
               else if |Encode(Render(body, replacements))| > maxLength then Some(TooLong)
               else None
  {
    hide Names, Encode, Placeable, Spans, EncodeAll, EntitiesError, Itself, Render;
    SourceAcceptedExactly(body, stored, allowed, maxSource);
    NothingBeyond(Names(body), allowed);
    NothingBeyond(Names(body), replacements.Keys);
    EntitiesAccepted(Encode(body), EncodeAll(replacements), stored, 0);
  }

  /** What a remapped entity covers in the rendered text is the rendering of what it covers in the template. */
  lemma EntityShowsRendering(body: Text, replacements: Replacements, e: Entity)
    requires Placeable(Encode(body), e)
    ensures var u, rendered := Encode(body), Encode(Render(body, replacements));
            var p := Placed(u, e, EncodeAll(replacements));
            && 0 <= p.offset.value <= p.offset.value + p.length.value <= |rendered|
            && rendered[p.offset.value..p.offset.value + p.length.value]
               == Render(u[e.offset.value..e.offset.value + e.length.value], EncodeAll(replacements))
            && p.attributes == e.attributes
  {
    hide Encode, Render, EncodeAll, Inside;
    RenderEncoded(body, replacements);
    RenderSlice(Encode(body), e.offset.value, e.offset.value + e.length.value, EncodeAll(replacements));
  }

  /** An entity over whole characters covers, once rendered, what those characters render to on their own. */
  lemma CharactersShowRendering(body: Text, a: nat, b: nat, replacements: Replacements, e: Entity)
    requires a <= b <= |body| && Placeable(Encode(body), e)
    requires e.offset.value == |Encode(body[..a])| && e.offset.value + e.length.value == |Encode(body[..b])|
    ensures var p := Placed(Encode(body), e, EncodeAll(replacements));
            && 0 <= p.offset.value <= p.offset.value + p.length.value <= |Encode(Render(body, replacements))|
            && Encode(Render(body, replacements))[p.offset.value..p.offset.value + p.length.value]
               == Encode(Render(body[a..b], replacements))
  {
    hide Encode, Render, EncodeAll, Inside;
    EntityShowsRendering(body, replacements, e);
    EncodeJoin(body[..b], body[b..]);
    EncodeJoin(body[..a], body[a..b]);
    assert body == body[..b] + body[b..] && body[..b] == body[..a] + body[a..b];
    assert Encode(body)[|Encode(body[..a])|..|Encode(body[..b])|] == Encode(body[a..b]);
    RenderEncoded(body[a..b], replacements);
  }

  // The order of places is the order of positions.
  lemma PlacesAscend(u: Text, x: nat, y: nat, r: Replacements)
    requires x <= y <= |u| && !Inside(u, x) && !Inside(u, y)
    ensures Place(u, x, r) <= Place(u, y, r)
  {
    RenderSlice(u, x, y, r);
  }

  ghost predicate Within(e: Entity, f: Entity)
    requires e.offset.Some? && e.length.Some? && f.offset.Some? && f.length.Some?
  {
    f.offset.value <= e.offset.value && e.offset.value + e.length.value <= f.offset.value + f.length.value
  }

  ghost predicate Ahead(e: Entity, f: Entity)
    requires e.offset.Some? && e.length.Some? && f.offset.Some?
  {
    e.offset.value + e.length.value <= f.offset.value
  }

  /** Nested entities stay nested, and entities apart stay apart, in the same order. */
  lemma NestingKept(u: Text, e: Entity, f: Entity, r: Replacements)
    requires Placeable(u, e) && Placeable(u, f)
    ensures Within(e, f) ==> Within(Placed(u, e, r), Placed(u, f, r))
    ensures Ahead(e, f) ==> Ahead(Placed(u, e, r), Placed(u, f, r))
  {
    hide Place, Inside;
    var a, b := e.offset.value, e.offset.value + e.length.value;
    var c, d := f.offset.value, f.offset.value + f.length.value;
    if Within(e, f) {
      PlacesAscend(u, c, a, r);
      PlacesAscend(u, a, b, r);
      PlacesAscend(u, b, d, r);
    }
    if Ahead(e, f) {
      PlacesAscend(u, b, c, r);
    }
  }

  // ---- A template whose variables stand for themselves ------------------------------------

  ghost predicate NamesStay(ms: seq<Match>, r: Replacements) {
    forall m :: m in ms ==> Lookup(r, m.name) == m.name
  }

  lemma {:induction false} RenderSame(s: Text, base: nat, r: Replacements)
    requires NamesStay(Matches(s, base), r)
    ensures Render(s, r) == s
    decreases |s|
  {
    hide VarLength, NameLength, Lookup, Matches, Render, NamesStay;
    if s == [] {
      RenderNone(r);
    } else {
      var n := VarLength(s);
      MatchesHead(s, base);
      RenderHead(s, r);
      if n > 0 {
        NamesStayLater(Match(base, base + n, s[..n]), Matches(s[n..], base + n), r);
        RenderSame(s[n..], base + n, r);
        assert s == s[..n] + s[n..];
      } else {
        RenderSame(s[1..], base + 1, r);
      }
    }
  }

  lemma NamesStayLater(m: Match, ms: seq<Match>, r: Replacements)
    requires NamesStay([m] + ms, r)
    ensures Lookup(r, m.name) == m.name && NamesStay(ms, r)
  {
    assert m in [m] + ms;
  }

  /** Replacing every variable by itself gives the template back. */
  lemma ItselfRenders(body: Text)
    ensures Render(body, Itself(body)) == body
  {
    hide Matches, Render;
    var ms := Matches(body, 0);
    assert forall m :: m in ms ==> m.name in Names(body);
    RenderSame(body, 0, Itself(body));
  }

  /** Text without variables is rendered as it stands, and its entities stay where they are. */
  lemma PlainTextStays(body: Text, r: Replacements, e: Entity)
    requires Matches(body, 0) == [] && Placeable(Encode(body), e)
    ensures Render(body, r) == body && Placed(Encode(body), e, EncodeAll(r)) == e
  {
    hide Matches, Render, Placeable, Placed, EncodeAll, Encode;
    RenderSame(body, 0, r);
    MatchesEncoded(body);
    EntityAccepted(Encode(body), EncodeAll(r), e);
    assert Spans(Encode(body), 0, EncodeAll(r)) == [];
    assert Moved([], e) == e;
  }

  /** A variable on its own renders to its replacement. */
  lemma VariableRenders(w: Text, r: Replacements)
    requires IsVariable(w) && w in r
    ensures Render(w, r) == r[w]
  {
    assert w[..|w|] == w && w[|w|..] == [];
    VariableAtHead(w, |w|);
  }
}
