/** Recognisers for the "optional modifier" surface syntax of a keyboard
    remapping rule: the three wildcard spellings that mean "any further
    modifier may be held", and `?`-prefixed aliases made of an optional side
    marker followed by modifier glyphs. */
module OptionalModifiers {

  /** The argument of the wildcard recogniser is an arbitrary script value.
      Only its string-ness and its truthiness matter: a string is falsy
      exactly when it is empty, and every other value (a number, an object,
      null, undefined, ...) is summarised by whether it is truthy. */
  datatype JsValue = JsString(s: string) | JsOther(truthy: bool)

  predicate Truthy(v: JsValue) {
    match v
    case JsString(s) => s != ""
    case JsOther(t) => t
  }

  /** The fixed wildcard spellings, in source order. */
  const OptionalAnyAliases: seq<string> := ["optionalAny", "?any", "??"]

  /** A falsy or non-string value is never a wildcard alias; a string is one
      exactly when it is listed in OptionalAnyAliases. */
  predicate IsOptionalAnyAlias(src: JsValue) {
    if !Truthy(src) || !src.JsString? then false
    else src.s in OptionalAnyAliases
  }

  /** The side markers of the alternation group, in source order. Note the
      prefix pairs "left"/"l" and "right"/"r". */
  const SideMarkers: seq<string> := ["left", "l", "<", "‹", "right", "r", ">", "›"]

  /** The character class of modifier glyphs: command, option, control,
      shift and caps lock. */
  predicate IsGlyph(c: char) {
    c == '⌘' || c == '⌥' || c == '⌃' || c == '⇧' || c == '⇪'
  }

  /** Every character of `g` is a modifier glyph. */
  ghost predicate GlyphsOnly(g: string) {
    forall i :: 0 <= i < |g| ==> IsGlyph(g[i])
  }

  /** The language of the optional-modifier pattern, stated declaratively:
      a `?`, then nothing or exactly one side marker, then only glyphs. */
  ghost predicate InAliasLanguage(s: string) {
    exists m: string, g: string ::
      (m == "" || m in SideMarkers) && GlyphsOnly(g) && s == "?" + m + g
  }

  // ---------------------------------------------------------------------
  // The matcher: the pattern run the way a backtracking regular-expression
  // engine runs it, left to right.
  // ---------------------------------------------------------------------

  /** `[⌘⌥⌃⇧⇪]*$`: consume glyphs one at a time and require the end of
      the input afterwards. */
  function GlyphRunToEnd(t: string): (r: bool)
    ensures r <==> GlyphsOnly(t)
  {
    if t == [] then true
    else IsGlyph(t[0]) && GlyphRunToEnd(t[1..])
  }

  /** Try the alternatives `alts` in order: each one must be a prefix of
      `t`, and the rest of `t` must then match `[⌘⌥⌃⇧⇪]*$`; on failure the
      engine backtracks to the next alternative. */
  function TryAlternatives(t: string, alts: seq<string>): (r: bool)
    ensures r <==> exists k :: 0 <= k < |alts| && alts[k] <= t && GlyphsOnly(t[|alts[k]|..])
  {
    if alts == [] then false
    else if alts[0] <= t && GlyphRunToEnd(t[|alts[0]|..]) then
      assert 0 < |alts| && alts[0] <= t && GlyphsOnly(t[|alts[0]|..]);
      true
    else
      var r := TryAlternatives(t, alts[1..]);
      assert forall k :: 1 <= k < |alts| ==> alts[k] == alts[1..][k - 1];
      r
  }

  /** `^\?(left|l|<|‹|right|r|>|›)?([⌘⌥⌃⇧⇪]*)$`: the greedy optional
      group first tries every side marker, and only then the empty branch. */
  predicate IsOptionalModifierAlias(src: string) {
    && |src| >= 1
    && src[0] == '?'
    && (TryAlternatives(src[1..], SideMarkers) || GlyphRunToEnd(src[1..]))
  }

  // ---------------------------------------------------------------------
  // The tagged input union.
  // ---------------------------------------------------------------------

  /** The three shapes an optional-modifier argument can take. `M` stands
      for the plain modifier parameter wrapped under `optional`, whose
      vocabulary is defined elsewhere. */
  datatype FromOptionalModifierParam<M> =
    | OptionalAny(anyAlias: string)
    | Optional(optional: M)
    | OptionalAlias(alias: string)

  datatype Option<T> = None | Some(value: T)

  /** A union value whose string payload has the shape its tag claims. */
  predicate WellTagged<M>(p: FromOptionalModifierParam<M>) {
    match p
    case OptionalAny(a) => IsOptionalAnyAlias(JsString(a))
    case Optional(_) => true
    case OptionalAlias(a) => IsOptionalModifierAlias(a)
  }

  /** Place a string into one of the two string-shaped tags of the union,
      or into neither. Because the recognisers are disjoint, the tag chosen
      does not depend on which recogniser is consulted first. */
  function Classify<M>(s: string): (r: Option<FromOptionalModifierParam<M>>)
    ensures r.Some? ==> WellTagged(r.value) && !r.value.Optional?
    ensures r == Some(OptionalAny(s)) <==> IsOptionalAnyAlias(JsString(s))
    ensures r == Some(OptionalAlias(s)) <==> IsOptionalModifierAlias(s)
    ensures r.None? <==> !IsOptionalAnyAlias(JsString(s)) && !IsOptionalModifierAlias(s)
  {
    RecognisersDisjoint(JsString(s));
    if IsOptionalAnyAlias(JsString(s)) then Some(OptionalAny(s))
    else if IsOptionalModifierAlias(s) then Some(OptionalAlias(s))
    else None
  }

  // ---------------------------------------------------------------------
  // Properties of the wildcard recogniser.
  // ---------------------------------------------------------------------

  /** A string is a wildcard alias exactly when it is one of the three
      spellings. */
  lemma OptionalAnyAliasExactly(s: string)
    ensures IsOptionalAnyAlias(JsString(s)) <==> s == "optionalAny" || s == "?any" || s == "??"
  {
  }

  /** Falsy values (including the empty string) and non-strings are
      rejected before the membership test. */
  lemma FalsyOrNonStringNotOptionalAny(v: JsValue)
    requires !Truthy(v) || !v.JsString?
    ensures !IsOptionalAnyAlias(v)
  {
  }

  // ---------------------------------------------------------------------
  // The matcher decides exactly the declarative language.
  // ---------------------------------------------------------------------

  lemma {:induction false} MatcherSound(s: string)
    requires IsOptionalModifierAlias(s)
    ensures InAliasLanguage(s)
  {
    var t := s[1..];
    assert s == "?" + t;
    if TryAlternatives(t, SideMarkers) {
      var k :| 0 <= k < |SideMarkers| && SideMarkers[k] <= t && GlyphsOnly(t[|SideMarkers[k]|..]);
      var m, g := SideMarkers[k], t[|SideMarkers[k]|..];
      assert t == m + g;
      assert s == "?" + m + g;
    } else {
      assert s == "?" + "" + t;
    }
  }

  lemma {:induction false} MatcherComplete(s: string)
    requires InAliasLanguage(s)
    ensures IsOptionalModifierAlias(s)
  {
    var m: string, g: string :| (m == "" || m in SideMarkers) && GlyphsOnly(g) && s == "?" + m + g;
    var t := s[1..];
    assert t == m + g;
    if m == "" {
      assert t == g;
      assert GlyphRunToEnd(t);
    } else {
      var k :| 0 <= k < |SideMarkers| && SideMarkers[k] == m;
      assert m <= t && t[|m|..] == g;
      assert TryAlternatives(t, SideMarkers);
    }
  }

  /** The backtracking matcher accepts exactly the strings of the form
      `?` + (nothing or one side marker) + glyphs. */
  lemma AliasRecognisedExactly(s: string)
    ensures IsOptionalModifierAlias(s) <==> InAliasLanguage(s)
  {
    if IsOptionalModifierAlias(s) { MatcherSound(s); }
    if InAliasLanguage(s) { MatcherComplete(s); }
  }

  // ---------------------------------------------------------------------
  // Shape of the accepted strings.
  // ---------------------------------------------------------------------

  /** Every accepted string is at least one character long and begins
      with `?`. */
  lemma AcceptedStartsWithQuestionMark(s: string)
    requires InAliasLanguage(s)
    ensures |s| >= 1 && s[0] == '?'
  {
    var m: string, g: string :| (m == "" || m in SideMarkers) && GlyphsOnly(g) && s == "?" + m + g;
    assert s[0] == ("?" + m + g)[0];
  }

  /** `?` on its own is accepted: both groups of the pattern may be empty. */
  lemma BareAccepted()
    ensures IsOptionalModifierAlias("?")
  {
    assert "?" == "?" + "" + "";
    assert GlyphsOnly("");
    MatcherComplete("?");
  }

  /** `?` followed by a single side marker and no glyph is accepted. */
  lemma SideOnlyAccepted(m: string)
    requires m in SideMarkers
    ensures IsOptionalModifierAlias("?" + m)
  {
    assert GlyphsOnly("");
    assert "?" + m == "?" + m + "";
    MatcherComplete("?" + m);
  }

  /** Length of the run of non-glyph characters at the front of `t`. */
  function NonGlyphRun(t: string): (n: nat)
    ensures n <= |t|
    ensures forall i :: 0 <= i < n ==> !IsGlyph(t[i])
    ensures n < |t| ==> IsGlyph(t[n])
  {
    if t == [] || IsGlyph(t[0]) then 0
    else 1 + NonGlyphRun(t[1..])
  }

  /** No side marker contains a glyph. */
  lemma MarkersHoldNoGlyph(m: string)
    requires m == "" || m in SideMarkers
    ensures forall i :: 0 <= i < |m| ==> !IsGlyph(m[i])
  {
  }

  /** After `?`, the marker part of a decomposition is exactly the leading
      run of non-glyph characters. */
  lemma {:induction false} MarkerIsNonGlyphRun(m: string, g: string)
    requires forall i :: 0 <= i < |m| ==> !IsGlyph(m[i])
    requires GlyphsOnly(g)
    ensures NonGlyphRun(m + g) == |m|
  {
    if m == [] {
      assert m + g == g;
    } else {
      assert (m + g)[1..] == m[1..] + g;
      MarkerIsNonGlyphRun(m[1..], g);
    }
  }

  /** An accepted string splits into its marker and its glyphs in only one
      way: the side marker sits directly after `?`, at most once, and every
      character after it is a glyph. */
  lemma DecompositionUnique(m1: string, g1: string, m2: string, g2: string)
    requires m1 == "" || m1 in SideMarkers
    requires m2 == "" || m2 in SideMarkers
    requires GlyphsOnly(g1) && GlyphsOnly(g2)
    requires "?" + m1 + g1 == "?" + m2 + g2
    ensures m1 == m2 && g1 == g2
  {
    var t := ("?" + m1 + g1)[1..];
    assert t == m1 + g1 && t == m2 + g2;
    MarkersHoldNoGlyph(m1);
    MarkersHoldNoGlyph(m2);
    MarkerIsNonGlyphRun(m1, g1);
    MarkerIsNonGlyphRun(m2, g2);
    assert m1 == t[..|m1|] == m2;
    assert g1 == t[|m1|..] == g2;
  }

  /** The last character of `?` + marker + a non-empty glyph string is a glyph. */
  lemma LastIsGlyph(m: string, g: string)
    requires g != [] && GlyphsOnly(g)
    ensures IsGlyph(("?" + m + g)[|"?" + m + g| - 1])
  {
    assert ("?" + m + g)[|"?" + m + g| - 1] == g[|g| - 1];
  }

  /** If an accepted string ends in a non-glyph, everything after `?` is a
      single side marker. */
  lemma {:induction false} EndsInNonGlyphIsMarker(s: string)
    requires InAliasLanguage(s)
    requires |s| > 1 && !IsGlyph(s[|s| - 1])
    ensures s[1..] in SideMarkers
  {
    var m: string, g: string :| (m == "" || m in SideMarkers) && GlyphsOnly(g) && s == "?" + m + g;
    if g != [] {
      LastIsGlyph(m, g);
      assert false;
    }
    assert s[1..] == m;
  }

  /** A side marker after a glyph is rejected. */
  lemma MarkerAfterGlyphRejected()
    ensures !IsOptionalModifierAlias("?⌘l")
  {
    RejectIfTailNotMarker("?⌘l");
  }

  /** Two side markers in a row are rejected. */
  lemma TwoMarkersRejected()
    ensures !IsOptionalModifierAlias("?l<")
  {
    RejectIfTailNotMarker("?l<");
  }

  /** A truncated side marker is rejected, although it starts with the
      shorter marker "l". */
  lemma TruncatedMarkerRejected()
    ensures !IsOptionalModifierAlias("?lef")
  {
    RejectIfTailNotMarker("?lef");
  }

  /** A full side marker followed by a glyph is accepted, although the
      shorter marker "l" is a prefix of it. */
  lemma MarkerThenGlyphAccepted()
    ensures IsOptionalModifierAlias("?left⌘")
  {
    assert GlyphsOnly("⌘");
    assert "?left⌘" == "?" + "left" + "⌘";
    MatcherComplete("?left⌘");
  }

  /** The pattern knows glyphs only: a `?` followed by a modifier word is
      not recognised. */
  lemma WordAfterQuestionMarkRejected()
    ensures !IsOptionalModifierAlias("?cmd")
  {
    RejectIfTailNotMarker("?cmd");
  }

  /** Helper for the concrete rejections: a string ending in a non-glyph
      whose tail after `?` is no side marker is rejected. */
  lemma RejectIfTailNotMarker(s: string)
    requires |s| > 1 && !IsGlyph(s[|s| - 1]) && s[1..] !in SideMarkers
    ensures !IsOptionalModifierAlias(s)
  {
    if IsOptionalModifierAlias(s) {
      MatcherSound(s);
      EndsInNonGlyphIsMarker(s);
    }
  }

  /** Appending a glyph to an accepted string keeps it accepted. */
  lemma {:induction false} AppendGlyphPreservesAcceptance(s: string, c: char)
    requires IsOptionalModifierAlias(s) && IsGlyph(c)
    ensures IsOptionalModifierAlias(s + [c])
  {
    MatcherSound(s);
    var m: string, g: string :| (m == "" || m in SideMarkers) && GlyphsOnly(g) && s == "?" + m + g;
    assert s + [c] == "?" + m + (g + [c]);
    assert GlyphsOnly(g + [c]);
    MatcherComplete(s + [c]);
  }

  // ---------------------------------------------------------------------
  // The two string recognisers never overlap.
  // ---------------------------------------------------------------------

  /** No value is both a wildcard alias and an optional-modifier alias;
      in particular `??` and `?any` do not match the pattern. */
  lemma RecognisersDisjoint(v: JsValue)
    ensures !(IsOptionalAnyAlias(v) && v.JsString? && IsOptionalModifierAlias(v.s))
  {
    if IsOptionalAnyAlias(v) {
      var s := v.s;
      if s == "optionalAny" {
        assert s[0] != '?';
      } else {
        RejectIfTailNotMarker(s);
      }
    }
  }
}
