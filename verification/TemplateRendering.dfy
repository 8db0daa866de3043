/** Rendering a template with its formatting entities, and checking one before it is stored
    (src/cinegate/presentation/templates.py). */
module TemplateRendering {
  import opened Wrappers
  import opened Templates
  import opened TemplateSlices

  // A formatting entity, its offset and length in UTF-16 units; None where the stored value is missing or no number.
  datatype Entity = Entity(offset: Option<int>, length: Option<int>, attributes: string)

  datatype RenderedTemplate = RenderedTemplate(text: Text, entities: seq<Entity>)

  datatype TemplateError =
    | EmptyBody
    | BadMaxLength
    | UnsupportedVariables(names: set<Text>)
    | MissingReplacements(names: set<Text>)
    | TooLong
    | InvalidOffsets
    | OutsideText
    | SplitsVariable(name: Text)

  // ---- From positions in the text to units ------------------------------------------------

  function InUnits(body: Text, m: Match): Match
    requires m.start <= m.end <= |body|
  {
    Match(|Encode(body[..m.start])|, |Encode(body[..m.end])|, m.name)
  }

  ghost function AllInUnits(body: Text, ms: seq<Match>): seq<Match>
    requires AllLocated(body, 0, ms)
  {
    seq(|ms|, i requires 0 <= i < |ms| =>
      assert Located(body, 0, ms[i]);
      InUnits(body, ms[i]))
  }

  lemma VarAscii(s: Text)
    ensures forall i :: 0 <= i < VarLength(s) ==> s[i] < 0x10000
  {}

  lemma MatchesStep(s: Text, base: nat)
    requires s != [] && VarLength(s) == 0
    ensures Matches(Encode(s), base) == Matches(Encode(s[1..]), base + |EncodeOne(s[0])|)
  {
    hide VarLength, NameLength;
    var u := Encode(s);
    EncodedVar(s);
    if s[0] < 0x10000 {
      assert u[1..] == Encode(s[1..]);
    } else {
      NoVar(u[1..]);
      assert u[1..][1..] == Encode(s[1..]);
      assert Matches(u, base) == Matches(u[1..], base + 1);
    }
  }

  // The front of a text and what follows, both moved on by k.
  lemma MoveOn(pre: Text, s: Text, k: nat)
    requires k <= |s|
    ensures (pre + s[..k]) + s[k..] == pre + s
    ensures |Encode(pre + s[..k])| == |Encode(pre)| + |Encode(s[..k])|
  {
    EncodeJoin(pre, s[..k]);
  }

  lemma {:induction false} MatchesEncodedFrom(pre: Text, s: Text)
    ensures AllLocated(pre + s, 0, Matches(s, |pre|))
    ensures Matches(Encode(s), |Encode(pre)|) == AllInUnits(pre + s, Matches(s, |pre|))
    decreases |s|
  {
    hide VarLength, NameLength, Matches, Encode, AllInUnits, AllLocated;
    if s == [] {
      NoMatches(pre);
    } else {
      EncodedVar(s);
      MatchesHead(s, |pre|);
      var n := VarLength(s);
      var k := if n > 0 then n else 1;
      MoveOn(pre, s, k);
      MatchesEncodedFrom(pre + s[..k], s[k..]);
      if n > 0 {
        MatchesEncodedHead(pre, s, n);
      } else {
        MatchesStep(s, |Encode(pre)|);
        EncodedUnit(s);
      }
    }
  }

  lemma EncodedUnit(s: Text)
    requires s != []
    ensures Encode(s[..1]) == EncodeOne(s[0])
  {
    assert s[..1] == [s[0]];
    assert Encode([s[0]]) == EncodeOne(s[0]) + Encode([]);
  }

  lemma NoMatches(pre: Text)
    ensures AllLocated(pre + [], 0, Matches([], |pre|))
    ensures Matches(Encode([]), |Encode(pre)|) == AllInUnits(pre + [], Matches([], |pre|))
  {}

  lemma MatchesEncodedHead(pre: Text, s: Text, n: nat)
    requires n == VarLength(s) > 0
    requires |Encode(pre + s[..n])| == |Encode(pre)| + |Encode(s[..n])|
    requires AllLocated(pre + s, 0, Matches(s[n..], |pre| + n))
    requires Matches(Encode(s[n..]), |Encode(pre + s[..n])|) == AllInUnits(pre + s, Matches(s[n..], |pre| + n))
    ensures AllLocated(pre + s, 0, Matches(s, |pre|))
    ensures Matches(Encode(s), |Encode(pre)|) == AllInUnits(pre + s, Matches(s, |pre|))
  {
    hide VarLength, NameLength, Matches, Encode, Located, AllInUnits, AllLocated;
    var head := Match(|pre|, |pre| + n, s[..n]);
    var rest := Matches(s[n..], |pre| + n);
    EncodedVar(s);
    VarAscii(s);
    EncodeAscii(s[..n]);
    EncodedHead(s);
    MatchesHead(s, |pre|);
    MatchesHead(Encode(s), |Encode(pre)|);
    assert Located(pre + s, 0, head) by { LocatedAfter(pre, s, n); }
    assert (pre + s)[..|pre|] == pre && (pre + s)[..|pre| + n] == pre + s[..n];
    assert InUnits(pre + s, head) == Match(|Encode(pre)|, |Encode(pre)| + n, s[..n]);
    AllInUnitsCons(pre + s, head, rest);
  }

  lemma AllInUnitsCons(body: Text, head: Match, rest: seq<Match>)
    requires Located(body, 0, head) && AllLocated(body, 0, rest)
    ensures AllLocated(body, 0, [head] + rest)
    ensures AllInUnits(body, [head] + rest) == [InUnits(body, head)] + AllInUnits(body, rest)
  {
    hide Located, InUnits;
    assert Located(body, 0, head);
    forall i | 0 <= i < |[head] + rest|
      ensures Located(body, 0, ([head] + rest)[i])
    {
      assert ([head] + rest)[i] == if i == 0 then head else rest[i - 1];
    }
  }

  lemma LocatedAfter(pre: Text, s: Text, n: nat)
    requires 0 < n <= |s|
    ensures Located(pre + s, 0, Match(|pre|, |pre| + n, s[..n]))
  {}

  /** The variables of the encoded template are those of the template, at the positions UTF-16 lengths give them. */
  lemma MatchesEncoded(body: Text)
    ensures AllLocated(body, 0, Matches(body, 0))
    ensures Matches(Encode(body), 0) == AllInUnits(body, Matches(body, 0))
  {
    MatchesEncodedFrom([], body);
    assert [] + body == body;
  }

  // ---- Entities ---------------------------------------------------------------------------

  /** The first variable that a boundary of the entity splits. */
  function FirstSplit(spans: seq<Span>, i: nat, start: int, end: int): Option<Text>
    requires i <= |spans|
    decreases |spans| - i
  {
    if i == |spans| then None
    else if spans[i].start < start < spans[i].end || spans[i].start < end < spans[i].end then Some(spans[i].name)
    else FirstSplit(spans, i + 1, start, end)
  }

  function EntityError(spans: seq<Span>, total: nat, e: Entity): Option<TemplateError> {
    if e.offset.None? || e.length.None? then Some(InvalidOffsets)
    else if e.offset.value < 0 || e.length.value <= 0 || e.offset.value + e.length.value > total then Some(OutsideText)
    else match FirstSplit(spans, 0, e.offset.value, e.offset.value + e.length.value)
         case Some(name) => Some(SplitsVariable(name))
         case None => None
  }

  /** The error of the first entity from i on that has one. */
  function EntitiesError(spans: seq<Span>, total: nat, es: seq<Entity>, i: nat): Option<TemplateError>
    requires i <= |es|
    decreases |es| - i
  {
    if i == |es| then None
    else if EntityError(spans, total, es[i]).Some? then EntityError(spans, total, es[i])
    else EntitiesError(spans, total, es, i + 1)
  }

  function Moved(spans: seq<Span>, e: Entity): Entity
    requires e.offset.Some? && e.length.Some?
  {
    var start, end := e.offset.value, e.offset.value + e.length.value;
    e.(offset := Some(start + Shift(spans, start)),
       length := Some(end + Shift(spans, end) - start - Shift(spans, start)))
  }

  /** An entity within the text whose boundaries split no variable. */
  predicate Placeable(u: Text, e: Entity) {
    && e.offset.Some? && e.length.Some?
    && 0 <= e.offset.value < e.offset.value + e.length.value <= |u|
    && !Inside(u, e.offset.value) && !Inside(u, e.offset.value + e.length.value)
  }

  /** Where the entity stands in the rendered text: from the place of its start to the place of its end. */
  function Placed(u: Text, e: Entity, r: Replacements): Entity
    requires Placeable(u, e)
  {
    var start, end := Place(u, e.offset.value, r), Place(u, e.offset.value + e.length.value, r);
    e.(offset := Some(start), length := Some(end - start))
  }

  lemma {:induction false} FirstSplitFinds(spans: seq<Span>, i: nat, start: int, end: int)
    requires i <= |spans|
    ensures FirstSplit(spans, i, start, end).None? <==>
            forall j :: i <= j < |spans| ==>
              !(spans[j].start < start < spans[j].end) && !(spans[j].start < end < spans[j].end)
    decreases |spans| - i
  {
    if i < |spans| {
      FirstSplitFinds(spans, i + 1, start, end);
    }
  }

  /** The name reported is that of the first variable split. */
  lemma {:induction false} FirstSplitIsFirst(spans: seq<Span>, i: nat, start: int, end: int) returns (j: nat)
    requires i <= |spans| && FirstSplit(spans, i, start, end).Some?
    ensures i <= j < |spans| && FirstSplit(spans, i, start, end) == Some(spans[j].name)
    ensures spans[j].start < start < spans[j].end || spans[j].start < end < spans[j].end
    ensures forall k :: i <= k < j ==>
              !(spans[k].start < start < spans[k].end) && !(spans[k].start < end < spans[k].end)
    decreases |spans| - i
  {
    if spans[i].start < start < spans[i].end || spans[i].start < end < spans[i].end {
      j := i;
    } else {
      j := FirstSplitIsFirst(spans, i + 1, start, end);
    }
  }

  /** What is wrong with an entity: a missing number comes before its place, its place before a split variable. */
  lemma EntityErrorsExactly(spans: seq<Span>, total: nat, e: Entity)
    ensures EntityError(spans, total, e) == Some(InvalidOffsets) <==> e.offset.None? || e.length.None?
    ensures EntityError(spans, total, e) == Some(OutsideText) <==>
            && e.offset.Some? && e.length.Some?
            && !(0 <= e.offset.value < e.offset.value + e.length.value <= total)
    ensures forall name :: EntityError(spans, total, e) == Some(SplitsVariable(name)) <==>
              && e.offset.Some? && e.length.Some?
              && 0 <= e.offset.value < e.offset.value + e.length.value <= total
              && FirstSplit(spans, 0, e.offset.value, e.offset.value + e.length.value) == Some(name)
  {
    hide FirstSplit;
  }

  /** The error reported for a list of entities is that of the first one that has any. */
  lemma {:induction false} FirstErrorIsFirst(spans: seq<Span>, total: nat, es: seq<Entity>, i: nat) returns (j: nat)
    requires i <= |es| && EntitiesError(spans, total, es, i).Some?
    ensures i <= j < |es| && EntitiesError(spans, total, es, i) == EntityError(spans, total, es[j])
    ensures EntityError(spans, total, es[j]).Some? && forall k :: i <= k < j ==> EntityError(spans, total, es[k]).None?
    decreases |es| - i
  {
    hide EntityError;
    if EntityError(spans, total, es[i]).Some? {
      j := i;
    } else {
      j := FirstErrorIsFirst(spans, total, es, i + 1);
    }
  }

  lemma SplitsByIndex(u: Text, r: Replacements, x: nat)
    ensures Inside(u, x) <==> exists j ::
            0 <= j < |Spans(u, 0, r)| && Spans(u, 0, r)[j].start < x < Spans(u, 0, r)[j].end
  {
    hide Inside, Matches;
    InsideMatches(u, 0, x);
    MatchesInside(u, 0);
    var ms := Matches(u, 0);
    assert forall j :: 0 <= j < |ms| ==> Spans(u, 0, r)[j].start == ms[j].start && Spans(u, 0, r)[j].end == ms[j].end;
  }

  /** The source refuses an entity exactly when it leaves the text or splits a variable, and otherwise moves it to the
      place of what it covers. */
  lemma EntityAccepted(u: Text, r: Replacements, e: Entity)
    ensures EntityError(Spans(u, 0, r), |u|, e).None? <==> Placeable(u, e)
    ensures Placeable(u, e) ==> Moved(Spans(u, 0, r), e) == Placed(u, e, r)
  {
    hide Spans, Inside, Shift, FirstSplit, Place;
    if e.offset.Some? && e.length.Some? && 0 <= e.offset.value && 0 < e.length.value
      && e.offset.value + e.length.value <= |u| {
      var start, end := e.offset.value, e.offset.value + e.length.value;
      FirstSplitFinds(Spans(u, 0, r), 0, start, end);
      SplitsByIndex(u, r, start);
      SplitsByIndex(u, r, end);
      if Placeable(u, e) {
        ShiftPlaces(u, 0, start, r);
        ShiftPlaces(u, 0, end, r);
      }
    }
  }

  lemma {:induction false} EntitiesAccepted(u: Text, r: Replacements, es: seq<Entity>, i: nat)
    requires i <= |es|
    ensures EntitiesError(Spans(u, 0, r), |u|, es, i).None? <==> forall j :: i <= j < |es| ==> Placeable(u, es[j])
    decreases |es| - i
  {
    hide Spans, EntityError, Placeable;
    if i < |es| {
      EntityAccepted(u, r, es[i]);
      EntitiesAccepted(u, r, es, i + 1);
    }
  }

  /** Remaps the entities, or reports the first that cannot be. */
  method RemapEntities(total: nat, entities: seq<Entity>, spans: seq<Span>)
    returns (r: Result<seq<Entity>, TemplateError>)
    ensures match EntitiesError(spans, total, entities, 0)
            case Some(error) => r == Err(error)
            case None => r.Ok? && |r.value| == |entities| && forall i :: 0 <= i < |entities| ==>
                           && EntityError(spans, total, entities[i]).None? && r.value[i] == Moved(spans, entities[i])
  {
    var remapped: seq<Entity> := [];
    for i := 0 to |entities|
      invariant |remapped| == i
      invariant EntitiesError(spans, total, entities, 0) == EntitiesError(spans, total, entities, i)
      invariant forall j :: 0 <= j < i ==>
                  EntityError(spans, total, entities[j]).None? && remapped[j] == Moved(spans, entities[j])
    {
      var moved := RemapEntity(total, entities[i], spans);
      if moved.Err? {
        return Err(moved.error);
      }
      remapped := remapped + [moved.value];
    }
    return Ok(remapped);
  }

  method RemapEntity(total: nat, e: Entity, spans: seq<Span>) returns (r: Result<Entity, TemplateError>)
    ensures match EntityError(spans, total, e)
            case Some(error) => r == Err(error)
            case None => r == Ok(Moved(spans, e))
  {
    if e.offset.None? || e.length.None? {
      return Err(InvalidOffsets);
    }
    var start, length := e.offset.value, e.length.value;
    if start < 0 || length <= 0 || start + length > total {
      return Err(OutsideText);
    }
    var end := start + length;
    var newStart, newEnd := start, end;
    for i := 0 to |spans|
      invariant FirstSplit(spans, 0, start, end) == FirstSplit(spans, i, start, end)
      invariant newStart == start + Shift(spans[..i], start)
      invariant newEnd == end + Shift(spans[..i], end)
    {
      var span := spans[i];
      if span.start < start < span.end || span.start < end < span.end {
        return Err(SplitsVariable(span.name));
      }
      assert spans[..i + 1][..i] == spans[..i];
      var delta := span.replaced - span.original;
      if span.end <= start {
        newStart, newEnd := newStart + delta, newEnd + delta;
      } else if start <= span.start && span.end <= end {
        newEnd := newEnd + delta;
      }
    }
    assert spans[..|spans|] == spans;
    return Ok(e.(offset := Some(newStart), length := Some(newEnd - newStart)));
  }

  // ---- Rendering and validating -----------------------------------------------------------

  /** The first thing wrong with rendering a template, in the order in which the source looks. */
  ghost function RenderError(body: Text, stored: seq<Entity>, allowed: set<Text>, replacements: Replacements,
                             maxLength: int): Option<TemplateError>
  {
    if body == [] then Some(EmptyBody)
    else if maxLength <= 0 then Some(BadMaxLength)
    else if Names(body) - allowed != {} then Some(UnsupportedVariables(Names(body) - allowed))
    else if Names(body) - replacements.Keys != {} then Some(MissingReplacements(Names(body) - replacements.Keys))
    else if |Encode(Render(body, replacements))| > maxLength then Some(TooLong)
    else EntitiesError(Spans(Encode(body), 0, EncodeAll(replacements)), |Encode(body)|, stored, 0)
  }

  /** The first thing wrong with a template that is to be stored. */
  ghost function SourceError(body: Text, stored: seq<Entity>, allowed: set<Text>,
                             maxLength: int): Option<TemplateError> {
    if body == [] then Some(EmptyBody)
    else if |Encode(body)| > maxLength then Some(TooLong)
    else if Names(body) - allowed != {} then Some(UnsupportedVariables(Names(body) - allowed))
    else EntitiesError(Spans(Encode(body), 0, EncodeAll(Itself(body))), |Encode(body)|, stored, 0)
  }

  // Every variable replaced by itself.
  function Itself(body: Text): Replacements {
    map n | n in Names(body) :: n
  }

  // The text up to its first match, what replaces the match, and the rest.
  ghost predicate Continues(s: Text, base: nat, r: Replacements, ms: seq<Match>, rendered: Text) {
    if ms == [] then rendered == s
    else
      && base <= ms[0].start < ms[0].end <= base + |s|
      && rendered == s[..ms[0].start - base] + Lookup(r, ms[0].name) + Render(s[ms[0].end - base..], r)
      && ms[1..] == Matches(s[ms[0].end - base..], ms[0].end)
  }

  lemma ContinuesLater(s: Text, base: nat, r: Replacements, ms: seq<Match>, rendered: Text)
    requires s != [] && Continues(s[1..], base + 1, r, ms, rendered)
    ensures Continues(s, base, r, ms, [s[0]] + rendered)
  {
    hide Render, Matches, Lookup;
    if ms != [] {
      var a, b := ms[0].start - base, ms[0].end - base;
      assert s[1..][..a - 1] == s[1..a] && s[..a] == [s[0]] + s[1..a] && s[1..][b - 1..] == s[b..];
    }
  }

  lemma ContinuesHere(s: Text, base: nat, r: Replacements)
    requires VarLength(s) > 0
    ensures Continues(s, base, r, Matches(s, base), Render(s, r))
  {
    hide Lookup, VarLength, NameLength, Matches, Render;
    var n := VarLength(s);
    MatchesHead(s, base);
    RenderHead(s, r);
    var rest := Matches(s[n..], base + n);
    assert ([Match(base, base + n, s[..n])] + rest)[1..] == rest;
    assert s[..0] + Lookup(r, s[..n]) == Lookup(r, s[..n]);
  }

  /** Up to its first variable a text is copied; after it, rendering goes on. */
  lemma {:induction false} NextMatch(s: Text, base: nat, r: Replacements)
    ensures Continues(s, base, r, Matches(s, base), Render(s, r))
    decreases |s|
  {
    hide VarLength, NameLength, Lookup, Continues, Matches, Render;
    if s == [] {
      NoneLeft(base, r);
    } else if VarLength(s) > 0 {
      ContinuesHere(s, base, r);
    } else {
      MatchesHead(s, base);
      RenderHead(s, r);
      NextMatch(s[1..], base + 1, r);
      ContinuesLater(s, base, r, Matches(s[1..], base + 1), Render(s[1..], r));
    }
  }

  lemma NoneLeft(base: nat, r: Replacements)
    ensures Continues([], base, r, Matches([], base), Render([], r))
  {}

  /** From the cursor on, the text between the variables as it stands, and for each variable what replaces it. */
  ghost predicate Alternates(body: Text, cursor: nat, ms: seq<Match>, r: Replacements, rendered: Text)
    decreases |ms|
  {
    if ms == [] then cursor <= |body| && rendered == body[cursor..]
    else
      var m := ms[0];
      && cursor <= m.start <= m.end <= |body| && m.name in r
      && var front := body[cursor..m.start] + r[m.name];
         front <= rendered && Alternates(body, m.end, ms[1..], r, rendered[|front|..])
  }

  lemma {:induction false} RenderAlternatesFrom(body: Text, cursor: nat, r: Replacements)
    requires cursor <= |body| && forall m :: m in Matches(body[cursor..], cursor) ==> m.name in r
    ensures Alternates(body, cursor, Matches(body[cursor..], cursor), r, Render(body[cursor..], r))
    decreases |body| - cursor
  {
    hide Render, Matches;
    var s := body[cursor..];
    var ms := Matches(s, cursor);
    NextMatch(s, cursor, r);
    if ms != [] {
      var m := ms[0];
      assert s[..m.start - cursor] == body[cursor..m.start] && s[m.end - cursor..] == body[m.end..];
      var front := body[cursor..m.start] + r[m.name];
      assert Render(s, r) == front + Render(body[m.end..], r);
      assert Render(s, r)[|front|..] == Render(body[m.end..], r);
      RenderAlternatesFrom(body, m.end, r);
    }
  }

  /** Rendering copies the text between the variables and puts for each variable its replacement. */
  lemma RenderAlternates(body: Text, r: Replacements)
    requires Names(body) <= r.Keys
    ensures Alternates(body, 0, Matches(body, 0), r, Render(body, r))
  {
    hide Render, Matches;
    assert body[0..] == body;
    assert forall m :: m in Matches(body, 0) ==> m.name in Names(body);
    RenderAlternatesFrom(body, 0, r);
  }

  // The span the source computes for a variable, from the text before it and after it.
  function SpanIn(body: Text, m: Match, replacement: Text): Span
    requires m.start <= m.end <= |body|
  {
    var start, end := |Encode(body[..m.start])|, |Encode(body[..m.end])|;
    Span(start, end, |Encode(replacement)|, if start <= end then end - start else 0, m.name)
  }

  /** These are the spans of the encoded template. */
  lemma SpansComputed(body: Text, r: Replacements, spans: seq<Span>)
    requires AllLocated(body, 0, Matches(body, 0)) && |spans| == |Matches(body, 0)|
    requires forall i :: 0 <= i < |spans| ==>
               && Located(body, 0, Matches(body, 0)[i])
               && spans[i] == SpanIn(body, Matches(body, 0)[i], Lookup(r, Matches(body, 0)[i].name))
    ensures spans == Spans(Encode(body), 0, EncodeAll(r))
  {
    hide VarLength, NameLength, Matches, Encode;
    MatchesEncoded(body);
    MatchesInside(Encode(body), 0);
    var us := Matches(Encode(body), 0);
    forall i | 0 <= i < |spans|
      ensures spans[i] == Spans(Encode(body), 0, EncodeAll(r))[i]
    {
      assert Located(Encode(body), 0, us[i]);
      LookupEncoded(r, us[i].name);
    }
  }

  lemma LookupEncoded(r: Replacements, name: Text)
    ensures Lookup(EncodeAll(r), name) == Encode(Lookup(r, name))
  {}

  method RenderTemplate(body: Text, stored: seq<Entity>, allowed: set<Text>, replacements: Replacements, maxLength: int)
    returns (r: Result<RenderedTemplate, TemplateError>)
    ensures match RenderError(body, stored, allowed, replacements, maxLength)
            case Some(error) => r == Err(error)
            case None =>
              && r.Ok? && Alternates(body, 0, Matches(body, 0), replacements, r.value.text)
              && r.value.text == Render(body, replacements) && |r.value.entities| == |stored|
              && forall i :: 0 <= i < |stored| ==>
                   && Placeable(Encode(body), stored[i])
                   && r.value.entities[i] == Placed(Encode(body), stored[i], EncodeAll(replacements))
  {
    hide Render, Matches, Encode, Placeable, Placed, EntityError, Moved, Spans, EncodeAll, Alternates;
    if body == [] {
      return Err(EmptyBody);
    }
    if maxLength <= 0 {
      return Err(BadMaxLength);
    }
    var variables := Matches(body, 0);
    var names := set m | m in variables :: m.name;
    if names - allowed != {} {
      return Err(UnsupportedVariables(names - allowed));
    }
    if names - replacements.Keys != {} {
      return Err(MissingReplacements(names - replacements.Keys));
    }
    assert forall m :: m in variables ==> m.name in names;
    assert forall name :: name in names ==> name !in names - replacements.Keys;
    var rendered, spans := Substitute(body, variables, replacements);
    RenderAlternates(body, replacements);
    if |Encode(rendered)| > maxLength {
      return Err(TooLong);
    }
    var remapped := RemapEntities(|Encode(body)|, stored, spans);
    if remapped.Err? {
      return Err(remapped.error);
    }
    forall i | 0 <= i < |stored|
      ensures Placeable(Encode(body), stored[i])
      ensures remapped.value[i] == Placed(Encode(body), stored[i], EncodeAll(replacements))
    {
      EntityAccepted(Encode(body), EncodeAll(replacements), stored[i]);
    }
    return Ok(RenderedTemplate(rendered, remapped.value));
  }

  // Puts the pieces together and notes where each variable stood.
  method Substitute(body: Text, variables: seq<Match>, replacements: Replacements)
    returns (rendered: Text, spans: seq<Span>)
    requires variables == Matches(body, 0) && forall m :: m in variables ==> m.name in replacements
    ensures rendered == Render(body, replacements) && spans == Spans(Encode(body), 0, EncodeAll(replacements))
  {
    hide Render, Matches, Encode, Spans, EncodeAll;
    MatchesInside(body, 0);
    rendered, spans := [], [];
    var cursor: nat := 0;
    assert body[0..] == body;
    for i := 0 to |variables|
      invariant cursor <= |body| && |spans| == i
      invariant variables[i..] == Matches(body[cursor..], cursor)
      invariant rendered + Render(body[cursor..], replacements) == Render(body, replacements)
      invariant forall j :: 0 <= j < i ==>
                  && Located(body, 0, variables[j])
                  && spans[j] == SpanIn(body, variables[j], Lookup(replacements, variables[j].name))
    {
      var m := variables[i];
      assert Located(body, 0, m);
      NextMatch(body[cursor..], cursor, replacements);
      assert variables[i..][0] == m && variables[i..][1..] == variables[i + 1..];
      assert body[cursor..][..m.start - cursor] == body[cursor..m.start]
             && body[cursor..][m.end - cursor..] == body[m.end..];
      var replacement := replacements[m.name];
      rendered := rendered + body[cursor..m.start] + replacement;
      spans := spans + [SpanIn(body, m, replacement)];
      cursor := m.end;
    }
    NextMatch(body[cursor..], cursor, replacements);
    rendered := rendered + body[cursor..];
    SpansComputed(body, replacements, spans);
  }

  method ValidateTemplateSource(body: Text, stored: seq<Entity>, allowed: set<Text>, maxLength: int)
    returns (error: Option<TemplateError>)
    ensures error == SourceError(body, stored, allowed, maxLength)
  {
    hide Matches, Encode, Spans, EncodeAll, EntityError, Moved;
    if body == [] {
      return Some(EmptyBody);
    }
    if |Encode(body)| > maxLength {
      return Some(TooLong);
    }
    var variables := Matches(body, 0);
    var names := set m | m in variables :: m.name;
    if names - allowed != {} {
      return Some(UnsupportedVariables(names - allowed));
    }
    var spans := OwnSpans(body, variables);
    var remapped := RemapEntities(|Encode(body)|, stored, spans);
    return if remapped.Err? then Some(remapped.error) else None;
  }

  // The spans of a template whose variables stay as they are.
  method OwnSpans(body: Text, variables: seq<Match>) returns (spans: seq<Span>)
    requires variables == Matches(body, 0)
    ensures spans == Spans(Encode(body), 0, EncodeAll(Itself(body)))
  {
    hide Matches, Encode, Spans, EncodeAll;
    MatchesInside(body, 0);
    spans := [];
    for i := 0 to |variables|
      invariant |spans| == i
      invariant forall j :: 0 <= j < i ==>
                  && Located(body, 0, variables[j])
                  && spans[j] == SpanIn(body, variables[j], Lookup(Itself(body), variables[j].name))
    {
      var m := variables[i];
      assert Located(body, 0, m);
      assert m.name in Names(body);
      spans := spans + [SpanIn(body, m, m.name)];
    }
    SpansComputed(body, Itself(body), spans);
  }
}
