/** Message templates: variables, their rendering, and text lengths in UTF-16 code units
    (src/cinegate/presentation/templates.py). Texts are sequences of numbers: Unicode scalar values in a template,
    16-bit units once encoded. */
module Templates {
  import opened Wrappers

  type Text = seq<int>

  type Replacements = map<Text, Text>

  const PERCENT := 37

  // ---- UTF-16, section 2.1 of RFC 2781 ----------------------------------------------------

  predicate IsScalar(c: int) {
    0 <= c < 0xD800 || 0xE000 <= c < 0x110000
  }

  function EncodeOne(c: int): (units: Text)
    ensures |units| == if c < 0x10000 then 1 else 2
    ensures IsScalar(c) ==> forall u :: u in units ==> 0 <= u < 0x10000
  {
    if c < 0x10000 then [c] else [0xD800 + (c - 0x10000) / 0x400, 0xDC00 + (c - 0x10000) % 0x400]
  }

  function Encode(s: Text): Text {
    if s == [] then [] else EncodeOne(s[0]) + Encode(s[1..])
  }

  function Decode(u: Text): Text {
    if u == [] then []
    else if 0xD800 <= u[0] < 0xDC00 && |u| > 1
      then [0x10000 + (u[0] - 0xD800) * 0x400 + (u[1] - 0xDC00)] + Decode(u[2..])
    else [u[0]] + Decode(u[1..])
  }

  /** The encoding loses nothing. */
  lemma {:induction false} DecodeEncode(s: Text)
    requires forall i :: 0 <= i < |s| ==> IsScalar(s[i])
    ensures Decode(Encode(s)) == s
  {
    if s != [] {
      DecodeEncode(s[1..]);
      var u := Encode(s);
      if s[0] < 0x10000 {
        assert u[1..] == Encode(s[1..]);
      } else {
        assert u[2..] == Encode(s[1..]);
      }
      assert s == [s[0]] + s[1..];
    }
  }

  // ---- Variables --------------------------------------------------------------------------

  predicate IsName(c: int) {
    97 <= c <= 122 || c == 95
  }

  /** How many letters and underscores a text begins with. */
  function NameLength(s: Text): (n: nat)
    ensures n <= |s|
    ensures forall i :: 0 <= i < n ==> IsName(s[i])
    ensures n < |s| ==> !IsName(s[n])
  {
    if s != [] && IsName(s[0]) then 1 + NameLength(s[1..]) else 0
  }

  /** The length of the variable a text begins with, or zero. */
  function VarLength(s: Text): (n: nat)
    ensures n <= |s|
    ensures n > 0 ==> n >= 3
  {
    if s == [] || s[0] != PERCENT then 0
    else
      var n := NameLength(s[1..]);
      if n > 0 && n + 1 < |s| && s[n + 1] == PERCENT then n + 2 else 0
  }

  datatype Match = Match(start: nat, end: nat, name: Text)

  /** The variables of a text, leftmost first and without overlap, at positions counted from `base`. */
  function Matches(s: Text, base: nat): seq<Match>
    decreases |s|
  {
    if s == [] then []
    else
      var n := VarLength(s);
      if n > 0 then [Match(base, base + n, s[..n])] + Matches(s[n..], base + n)
      else Matches(s[1..], base + 1)
  }

  function Names(s: Text): set<Text> {
    set m | m in Matches(s, 0) :: m.name
  }

  function Lookup(replacements: Replacements, name: Text): Text {
    if name in replacements then replacements[name] else []
  }

  /** The text with every variable replaced. */
  function Render(s: Text, replacements: Replacements): Text
    decreases |s|
  {
    if s == [] then []
    else
      var n := VarLength(s);
      if n > 0 then Lookup(replacements, s[..n]) + Render(s[n..], replacements)
      else [s[0]] + Render(s[1..], replacements)
  }

  /** A position strictly inside a variable. */
  predicate Inside(s: Text, x: int)
    decreases |s|
  {
    if s == [] || x <= 0 then false
    else
      var n := VarLength(s);
      if n > 0 then x < n || Inside(s[n..], x - n) else Inside(s[1..], x - 1)
  }

  function EncodeAll(replacements: Replacements): Replacements {
    map k | k in replacements :: Encode(replacements[k])
  }

  // ---- Encoding changes no variable -------------------------------------------------------

  lemma {:induction false} EncodeJoin(a: Text, b: Text)
    ensures Encode(a + b) == Encode(a) + Encode(b)
  {
    hide EncodeOne;
    if a == [] {
      assert a + b == b;
    } else {
      EncodeJoin(a[1..], b);
      EncodeCons(a + b, a[0], a[1..] + b);
      assert Encode(a) + Encode(b) == EncodeOne(a[0]) + (Encode(a[1..]) + Encode(b));
    }
  }

  lemma EncodeCons(s: Text, c: int, t: Text)
    requires s == [c] + t
    ensures Encode(s) == EncodeOne(c) + Encode(t)
  {
    assert s[1..] == t;
  }

  lemma {:induction false} EncodeAscii(s: Text)
    requires forall i :: 0 <= i < |s| ==> s[i] < 0x10000
    ensures Encode(s) == s
  {
    if s != [] {
      EncodeAscii(s[1..]);
    }
  }

  lemma {:induction false} EncodedName(s: Text)
    ensures NameLength(Encode(s)) == NameLength(s)
  {
    if s != [] {
      EncodedName(s[1..]);
      assert Encode(s)[0] == EncodeOne(s[0])[0];
      if IsName(s[0]) {
        assert Encode(s)[1..] == Encode(s[1..]);
      }
    }
  }

  lemma EncodedHead(s: Text)
    requires s != []
    ensures Encode(s) != [] && (Encode(s)[0] == PERCENT <==> s[0] == PERCENT)
    ensures s[0] == PERCENT ==> Encode(s)[1..] == Encode(s[1..])
  {
    assert Encode(s)[0] == EncodeOne(s[0])[0];
  }

  lemma EncodedPrefix(s: Text, n: nat)
    requires n <= |s| && forall i :: 0 <= i < n ==> s[i] < 0x10000
    ensures Encode(s) == s[..n] + Encode(s[n..])
  {
    hide Encode;
    EncodeJoin(s[..n], s[n..]);
    EncodeAscii(s[..n]);
    assert s == s[..n] + s[n..];
  }

  /** A template and its encoding begin with the same variable. */
  lemma EncodedVar(s: Text)
    ensures VarLength(Encode(s)) == VarLength(s)
    ensures var n := VarLength(s); Encode(s)[..n] == s[..n] && Encode(s)[n..] == Encode(s[n..])
  {
    if s != [] {
      EncodedHead(s);
      if s[0] == PERCENT {
        var t := s[1..];
        var n := NameLength(t);
        EncodedName(t);
        EncodedPrefix(t, n);
        if n < |t| {
          EncodedHead(t[n..]);
          assert Encode(t)[n] == Encode(t[n..])[0];
        }
        if VarLength(s) > 0 {
          EncodedPrefix(s, VarLength(s));
        }
      }
    }
  }

  /** Rendering commutes with encoding. */
  lemma {:induction false} RenderEncoded(s: Text, replacements: Replacements)
    ensures Encode(Render(s, replacements)) == Render(Encode(s), EncodeAll(replacements))
    decreases |s|
  {
    hide EncodeOne, VarLength, NameLength;
    if s != [] {
      EncodedVar(s);
      var n := VarLength(s);
      if n > 0 {
        RenderEncoded(s[n..], replacements);
        EncodeJoin(Lookup(replacements, s[..n]), Render(s[n..], replacements));
      } else {
        RenderEncoded(s[1..], replacements);
        EncodeCons(Render(s, replacements), s[0], Render(s[1..], replacements));
        RenderStep(s, EncodeAll(replacements));
      }
    }
  }

  lemma RenderStep(s: Text, all: Replacements)
    requires s != [] && VarLength(s) == 0
    ensures Render(Encode(s), all) == EncodeOne(s[0]) + Render(Encode(s[1..]), all)
  {
    hide VarLength, NameLength;
    var u := Encode(s);
    EncodedVar(s);
    if s[0] < 0x10000 {
      assert u[1..] == Encode(s[1..]);
    } else {
      assert u[1..] == [u[1]] + Encode(s[1..]);
      NoVar(u[1..]);
      assert u[1..][1..] == Encode(s[1..]);
      assert Render(u, all) == [u[0]] + Render(u[1..], all);
    }
  }

  lemma NoVar(s: Text)
    requires s == [] || s[0] != PERCENT
    ensures VarLength(s) == 0
  {}
}
