/** Slicing commutes with substitution: what makes the remapping of formatting entities right. */
module TemplateSlices {
  import opened Wrappers
  import opened Templates

  // A variable found in a front part of a text is the one found in the text.
  lemma VarInFront(s: Text, x: nat)
    requires x <= |s|
    ensures VarLength(s[..x]) > 0 ==> VarLength(s) == VarLength(s[..x])
    ensures 0 < VarLength(s) <= x ==> VarLength(s[..x]) == VarLength(s)
  {
    if x > 0 && s[0] == PERCENT {
      var t := s[1..];
      assert s[..x][1..] == t[..x - 1];
      NameInFront(t, x - 1);
    }
  }

  lemma {:induction false} NameInFront(s: Text, x: nat)
    requires x <= |s|
    ensures NameLength(s[..x]) == Min(NameLength(s), x)
  {
    if x > 0 && IsName(s[0]) {
      assert s[..x][1..] == s[1..][..x - 1];
      NameInFront(s[1..], x - 1);
    }
  }

  lemma Slices(s: Text, n: nat, x: nat)
    requires n <= x <= |s|
    ensures s[..x][n..] == s[n..][..x - n] && s[n..][x - n..] == s[x..] && s[..x][..n] == s[..n]
  {}

  lemma RenderHead(s: Text, r: Replacements)
    requires s != []
    ensures var n := VarLength(s);
            Render(s, r) == if n > 0 then Lookup(r, s[..n]) + Render(s[n..], r) else [s[0]] + Render(s[1..], r)
  {}

  /** A text cut where no variable is split renders as its two parts. */
  lemma {:induction false} RenderCut(s: Text, x: nat, r: Replacements)
    requires x <= |s| && !Inside(s, x)
    ensures Render(s, r) == Render(s[..x], r) + Render(s[x..], r)
    decreases |s|
  {
    hide VarLength, NameLength, Render, Lookup;
    if x == 0 {
      assert s[..x] == [] && s[x..] == s;
      RenderNone(r);
    } else {
      VarInFront(s, x);
      RenderHead(s, r);
      RenderHead(s[..x], r);
      var n := VarLength(s);
      if n > 0 {
        Slices(s, n, x);
        RenderCut(s[n..], x - n, r);
        assert VarLength(s[..x]) == n;
      } else {
        Slices(s, 1, x);
        RenderCut(s[1..], x - 1, r);
      }
    }
  }

  lemma RenderNone(r: Replacements)
    ensures Render([], r) == []
  {}

  // A position that splits no variable splits none in a front part either.
  lemma {:induction false} InsideFront(s: Text, y: nat, x: nat)
    requires x <= y <= |s| && !Inside(s, x) && !Inside(s, y)
    ensures !Inside(s[..y], x)
    decreases |s|
  {
    hide VarLength, NameLength;
    if x > 0 {
      VarInFront(s, y);
      var n := VarLength(s);
      if n > 0 {
        assert s[..y][n..] == s[n..][..y - n];
        InsideFront(s[n..], y - n, x - n);
      } else {
        assert s[..y][1..] == s[1..][..y - 1];
        InsideFront(s[1..], y - 1, x - 1);
      }
    }
  }

  /** Where a position of the template lands in the rendered text. */
  function Place(s: Text, x: nat, r: Replacements): nat
    requires x <= |s|
  {
    |Render(s[..x], r)|
  }

  /** The rendering of a slice is the slice of the rendering, between the places of its ends. */
  lemma RenderSlice(s: Text, x: nat, y: nat, r: Replacements)
    requires x <= y <= |s| && !Inside(s, x) && !Inside(s, y)
    ensures Place(s, x, r) <= Place(s, y, r) <= |Render(s, r)|
    ensures Render(s, r)[Place(s, x, r)..Place(s, y, r)] == Render(s[x..y], r)
  {
    RenderCut(s, y, r);
    InsideFront(s, y, x);
    RenderCut(s[..y], x, r);
    assert s[..y][..x] == s[..x] && s[..y][x..] == s[x..y];
  }

  // ---- The spans the source computes with -------------------------------------------------

  // Where a variable stands in the template, in units, and how long its replacement is.
  datatype Span = Span(start: nat, end: nat, replaced: nat, original: nat, name: Text)

  function SpanOf(m: Match, r: Replacements): Span
    requires m.start <= m.end
  {
    Span(m.start, m.end, |Lookup(r, m.name)|, m.end - m.start, m.name)
  }

  // The match is where it says, counting positions from base.
  ghost predicate Located(s: Text, base: nat, m: Match) {
    base <= m.start < m.end <= base + |s| && m.name == s[m.start - base..m.end - base]
  }

  ghost predicate AllLocated(s: Text, base: nat, ms: seq<Match>) {
    forall i :: 0 <= i < |ms| ==> Located(s, base, ms[i])
  }

  lemma LocatedLater(s: Text, base: nat, k: nat, ms: seq<Match>)
    requires k <= |s| && AllLocated(s[k..], base + k, ms)
    ensures AllLocated(s, base, ms)
  {
    forall i | 0 <= i < |ms|
      ensures Located(s, base, ms[i])
    {
      var m := ms[i];
      assert Located(s[k..], base + k, m);
      assert s[k..][m.start - base - k..m.end - base - k] == s[m.start - base..m.end - base];
    }
  }

  lemma LocatedHead(s: Text, base: nat, n: nat, ms: seq<Match>)
    requires 0 < n <= |s| && AllLocated(s, base, ms)
    ensures AllLocated(s, base, [Match(base, base + n, s[..n])] + ms)
  {
    hide Located;
    var head := Match(base, base + n, s[..n]);
    assert Located(s, base, head) by {
      HeadLocated(s, base, n);
    }
    var all := [head] + ms;
    forall i | 0 <= i < |all|
      ensures Located(s, base, all[i])
    {
      if i > 0 {
        assert all[i] == ms[i - 1];
      }
    }
  }

  lemma HeadLocated(s: Text, base: nat, n: nat)
    requires 0 < n <= |s|
    ensures Located(s, base, Match(base, base + n, s[..n]))
  {}

  lemma MatchesHead(s: Text, base: nat)
    requires s != []
    ensures var n := VarLength(s);
            Matches(s, base) == if n > 0 then [Match(base, base + n, s[..n])] + Matches(s[n..], base + n)
                                else Matches(s[1..], base + 1)
  {}

  lemma {:induction false} MatchesInside(s: Text, base: nat)
    ensures AllLocated(s, base, Matches(s, base))
    decreases |s|
  {
    hide VarLength, NameLength, AllLocated, Matches;
    if s == [] {
      MatchesNone(s, base, 0);
    } else {
      MatchesHead(s, base);
      var n := VarLength(s);
      if n > 0 {
        MatchesInside(s[n..], base + n);
        LocatedLater(s, base, n, Matches(s[n..], base + n));
        LocatedHead(s, base, n, Matches(s[n..], base + n));
      } else {
        MatchesInside(s[1..], base + 1);
        LocatedLater(s, base, 1, Matches(s[1..], base + 1));
      }
    }
  }

  // The position is strictly inside one of the matches.
  predicate SplitsAny(ms: seq<Match>, x: int) {
    exists i :: 0 <= i < |ms| && ms[i].start < x < ms[i].end
  }

  lemma SplitsCons(m: Match, ms: seq<Match>, x: int)
    ensures SplitsAny([m] + ms, x) <==> m.start < x < m.end || SplitsAny(ms, x)
  {
    assert ([m] + ms)[0] == m;
    assert forall i :: 0 <= i < |ms| ==> ([m] + ms)[i + 1] == ms[i];
  }

  lemma SplitsNone(s: Text, base: nat, ms: seq<Match>, x: int)
    requires AllLocated(s, base, ms) && x <= base
    ensures !SplitsAny(ms, x)
  {
    forall i | 0 <= i < |ms|
      ensures !(ms[i].start < x < ms[i].end)
    {
      assert Located(s, base, ms[i]);
    }
  }

  lemma MatchesNone(s: Text, base: nat, x: int)
    requires s == []
    ensures AllLocated(s, base, Matches(s, base)) && !SplitsAny(Matches(s, base), x) && !Inside(s, x - base)
  {}

  lemma InsideHead(s: Text, x: int)
    requires s != [] && x > 0
    ensures var n := VarLength(s);
            Inside(s, x) <==> if n > 0 then x < n || Inside(s[n..], x - n) else Inside(s[1..], x - 1)
  {}

  /** A position splits a variable exactly when it is strictly inside one of the matches. */
  lemma {:induction false} InsideMatches(s: Text, base: nat, x: nat)
    requires base <= x
    ensures Inside(s, x - base) <==> SplitsAny(Matches(s, base), x)
    decreases |s|
  {
    hide VarLength, NameLength, AllLocated, SplitsAny, Matches, Inside;
    if s == [] {
      MatchesNone(s, base, x);
    } else {
      if x == base {
        MatchesInside(s, base);
        SplitsNone(s, base, Matches(s, base), x);
        InsideAtStart(s);
      } else {
        InsideHead(s, x - base);
        MatchesHead(s, base);
        var n := VarLength(s);
        if n == 0 {
          InsideMatches(s[1..], base + 1, x);
        } else {
          SplitsCons(Match(base, base + n, s[..n]), Matches(s[n..], base + n), x);
          if x < base + n {
            MatchesInside(s[n..], base + n);
            SplitsNone(s[n..], base + n, Matches(s[n..], base + n), x);
          } else {
            InsideMatches(s[n..], base + n, x);
          }
        }
      }
    }
  }

  lemma InsideAtStart(s: Text)
    ensures !Inside(s, 0)
  {}

  /** The sum of what the variables that end by x have gained in length. */
  function Shift(spans: seq<Span>, x: int): int {
    if spans == [] then 0
    else Shift(spans[..|spans| - 1], x)
         + var last := spans[|spans| - 1]; if last.end <= x then last.replaced - last.original else 0
  }

  ghost function Spans(s: Text, base: nat, r: Replacements): seq<Span> {
    MatchesInside(s, base);
    var ms := Matches(s, base);
    seq(|ms|, i requires 0 <= i < |ms| => SpanOf(ms[i], r))
  }

  lemma {:induction false} ShiftCons(span: Span, spans: seq<Span>, x: int)
    ensures Shift([span] + spans, x) == Shift(spans, x) + if span.end <= x then span.replaced - span.original else 0
  {
    if spans != [] {
      ShiftCons(span, spans[..|spans| - 1], x);
      assert ([span] + spans)[..|spans|] == [span] + spans[..|spans| - 1];
    } else {
      assert ([span] + spans)[..0] == [];
    }
  }

  lemma {:induction false} ShiftNone(spans: seq<Span>, x: int)
    requires forall i :: 0 <= i < |spans| ==> spans[i].end > x
    ensures Shift(spans, x) == 0
  {
    if spans != [] {
      ShiftNone(spans[..|spans| - 1], x);
    }
  }

  lemma SpansHead(s: Text, base: nat, r: Replacements)
    requires s != []
    ensures var n := VarLength(s);
            Spans(s, base, r) == if n > 0 then [SpanOf(Match(base, base + n, s[..n]), r)] + Spans(s[n..], base + n, r)
                                 else Spans(s[1..], base + 1, r)
  {
    hide VarLength, NameLength;
  }

  /** Moving a position by the gains of the variables before it puts it where the rendering has it. */
  lemma {:induction false} ShiftPlaces(s: Text, base: nat, x: nat, r: Replacements)
    requires x <= |s| && !Inside(s, x)
    ensures x + Shift(Spans(s, base, r), base + x) == Place(s, x, r)
    decreases |s|
  {
    hide VarLength, NameLength, Spans, Shift, Render;
    if x == 0 {
      ShiftAtStart(s, base, r);
    } else {
      VarInFront(s, x);
      SpansHead(s, base, r);
      RenderHead(s[..x], r);
      var n := VarLength(s);
      if n > 0 {
        Slices(s, n, x);
        ShiftPlaces(s[n..], base + n, x - n, r);
        ShiftCons(SpanOf(Match(base, base + n, s[..n]), r), Spans(s[n..], base + n, r), base + x);
      } else {
        Slices(s, 1, x);
        ShiftPlaces(s[1..], base + 1, x - 1, r);
      }
    }
  }

  lemma ShiftAtStart(s: Text, base: nat, r: Replacements)
    ensures Shift(Spans(s, base, r), base) == 0 == Place(s, 0, r)
  {
    hide VarLength, NameLength;
    MatchesInside(s, base);
    ShiftNone(Spans(s, base, r), base);
  }
}
