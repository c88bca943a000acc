/**
 * The recipient-target parser of the PagerDuty notification channel
 * (`PagerDutyNotification._get_payload_info`): look up "target" in the
 * recipient's decoded configuration, split a string value on every `,`,
 * `;` and whitespace character, strip each field and keep the non-empty
 * ones, in order and with duplicates.
 */
module RecipientTargets {
  import opened Wrappers
  import opened Json

  // ---------------------------------------------------------------------
  // Characters
  // ---------------------------------------------------------------------

  /** Unicode whitespace as Python tests it for `\s` in a `str` pattern and
      for the argument-less `str.strip()`: the same set in both places. */
  predicate IsSpace(c: char) {
    || ('\t' <= c <= '\r')              // \t \n \v \f \r
    || ('\U{001C}' <= c <= '\U{001F}')  // file, group, record, unit separators
    || c == ' '
    || c == '\U{0085}' || c == '\U{00A0}' || c == '\U{1680}'
    || ('\U{2000}' <= c <= '\U{200A}')
    || c == '\U{2028}' || c == '\U{2029}' || c == '\U{202F}'
    || c == '\U{205F}' || c == '\U{3000}'
  }

  /** A character matched by the pattern `,|\s|;`. */
  predicate IsDelimiter(c: char) {
    c == ',' || c == ';' || IsSpace(c)
  }

  predicate DelimiterFree(w: string) {
    forall k :: 0 <= k < |w| ==> !IsDelimiter(w[k])
  }

  predicate AllDelimiters(g: string) {
    forall k :: 0 <= k < |g| ==> IsDelimiter(g[k])
  }

  predicate SpaceFree(w: string) {
    forall k :: 0 <= k < |w| ==> !IsSpace(w[k])
  }

  /** The delimiter characters of `s`, in order. */
  function Delimiters(s: string): (d: string)
    ensures AllDelimiters(d)
  {
    if s == [] then []
    else (if IsDelimiter(s[0]) then [s[0]] else []) + Delimiters(s[1..])
  }

  // ---------------------------------------------------------------------
  // Stage 1: re.split(r",|\s|;", s)
  // ---------------------------------------------------------------------

  /** Every field between delimiter characters, including the empty fields
      between adjacent delimiters and at either end. */
  function SplitFields(s: string): (r: seq<string>)
    ensures |r| == |Delimiters(s)| + 1
  {
    if s == [] then [""]
    else
      var rest := SplitFields(s[1..]);
      if IsDelimiter(s[0]) then [""] + rest
      else [[s[0]] + rest[0]] + rest[1..]
  }

  /** No field holds a delimiter character. */
  lemma {:induction false} SplitFieldsDelimiterFree(s: string)
    ensures forall i :: 0 <= i < |SplitFields(s)| ==> DelimiterFree(SplitFields(s)[i])
  {
    if s != [] {
      SplitFieldsDelimiterFree(s[1..]);
      var rest := SplitFields(s[1..]);
      if !IsDelimiter(s[0]) {
        assert DelimiterFree([s[0]] + rest[0]);
      }
    }
  }

  /** Puts fields back together, one delimiter character between neighbours. */
  function Restore(fields: seq<string>, delims: string): string
    requires |fields| == |delims| + 1
  {
    if delims == [] then fields[0]
    else fields[0] + [delims[0]] + Restore(fields[1..], delims[1..])
  }

  /** Splitting loses nothing: the fields and the delimiters give back `s`. */
  lemma {:induction false} RestoreSplitFields(s: string)
    ensures Restore(SplitFields(s), Delimiters(s)) == s
  {
    if s != [] {
      var c, t := s[0], s[1..];
      assert s == [c] + t;
      RestoreSplitFields(t);
      RestoreCons(c, t);
    }
  }

  /** One step of `RestoreSplitFields`: prepending a character to a string
      whose fields restore it gives a string whose fields restore it. */
  lemma RestoreCons(c: char, t: string)
    requires Restore(SplitFields(t), Delimiters(t)) == t
    ensures Restore(SplitFields([c] + t), Delimiters([c] + t)) == [c] + t
  {
    SplitFieldsCons(c, t);
    DelimitersCons(c, t);
    if IsDelimiter(c) {
      RestoreConsDelimiter(c, SplitFields(t), Delimiters(t));
    } else {
      assert [] + Delimiters(t) == Delimiters(t);
      RestoreConsWord(c, SplitFields(t), Delimiters(t));
    }
  }

  lemma DelimitersCons(c: char, t: string)
    ensures Delimiters([c] + t) == (if IsDelimiter(c) then [c] else []) + Delimiters(t)
  {
    assert ([c] + t)[0] == c && ([c] + t)[1..] == t;
  }

  lemma RestoreConsDelimiter(c: char, rest: seq<string>, d: string)
    requires |rest| == |d| + 1
    ensures Restore([""] + rest, [c] + d) == [c] + Restore(rest, d)
  {
    assert ([""] + rest)[1..] == rest;
    assert ([c] + d)[1..] == d;
  }

  lemma RestoreConsWord(c: char, rest: seq<string>, d: string)
    requires |rest| == |d| + 1
    ensures Restore([[c] + rest[0]] + rest[1..], d) == [c] + Restore(rest, d)
  {
    var fields := [[c] + rest[0]] + rest[1..];
    if d != [] {
      assert fields[1..] == rest[1..];
      var tail := [d[0]] + Restore(rest[1..], d[1..]);
      assert Restore(fields, d) == ([c] + rest[0]) + tail;
      AppendAssoc([c], rest[0], tail);
    }
  }

  /** A delimiter-free string is a single field. */
  lemma {:induction false} SplitFieldsOfWord(w: string)
    requires DelimiterFree(w)
    ensures SplitFields(w) == [w]
  {
    if w != [] {
      assert DelimiterFree(w[1..]);
      SplitFieldsOfWord(w[1..]);
      assert [w[0]] + w[1..] == w;
    }
  }

  /** One step of the split, for a string given as its first character and the rest. */
  lemma SplitFieldsCons(c: char, t: string)
    ensures SplitFields([c] + t) ==
              if IsDelimiter(c) then [""] + SplitFields(t)
              else [[c] + SplitFields(t)[0]] + SplitFields(t)[1..]
  {
    assert ([c] + t)[0] == c && ([c] + t)[1..] == t;
  }

  lemma AppendAssoc<T>(x: seq<T>, y: seq<T>, z: seq<T>)
    ensures (x + y) + z == x + (y + z)
  {
  }

  lemma ExtendFirstField(c: char, ra: seq<string>, rb: seq<string>)
    requires |ra| >= 1
    ensures [[c] + (ra + rb)[0]] + (ra + rb)[1..] == ([[c] + ra[0]] + ra[1..]) + rb
  {
    assert (ra + rb)[0] == ra[0];
    assert (ra + rb)[1..] == ra[1..] + rb;
  }

  /** Splitting at one delimiter character splits the fields there. */
  lemma {:induction false} SplitFieldsAtDelimiter(a: string, d: char, b: string)
    requires IsDelimiter(d)
    ensures SplitFields(a + [d] + b) == SplitFields(a) + SplitFields(b)
  {
    if a == [] {
      assert a + [d] + b == [d] + b;
      SplitFieldsCons(d, b);
    } else {
      var c, a' := a[0], a[1..];
      var ra, rb := SplitFields(a'), SplitFields(b);
      assert a == [c] + a';
      assert a + [d] + b == [c] + (a' + [d] + b);
      SplitFieldsAtDelimiter(a', d, b);
      SplitFieldsCons(c, a' + [d] + b);
      SplitFieldsCons(c, a');
      if IsDelimiter(c) {
        calc {
          SplitFields(a + [d] + b);
          SplitFields([c] + (a' + [d] + b));
          [""] + (ra + rb);
          { AppendAssoc([""], ra, rb); }
          ([""] + ra) + rb;
          SplitFields(a) + rb;
        }
      } else {
        calc {
          SplitFields(a + [d] + b);
          SplitFields([c] + (a' + [d] + b));
          [[c] + (ra + rb)[0]] + (ra + rb)[1..];
          { ExtendFirstField(c, ra, rb); }
          ([[c] + ra[0]] + ra[1..]) + rb;
          SplitFields(a) + rb;
        }
      }
    }
  }

  /** The inverse direction: fields free of delimiters, joined by delimiter
      characters, split back into exactly those fields. */
  lemma {:induction false} SplitFieldsRestore(fields: seq<string>, delims: string)
    requires |fields| == |delims| + 1
    requires forall i :: 0 <= i < |fields| ==> DelimiterFree(fields[i])
    requires AllDelimiters(delims)
    ensures SplitFields(Restore(fields, delims)) == fields
  {
    SplitFieldsOfWord(fields[0]);
    if delims != [] {
      var r := Restore(fields[1..], delims[1..]);
      SplitFieldsRestore(fields[1..], delims[1..]);
      SplitFieldsAtDelimiter(fields[0], delims[0], r);
      assert [fields[0]] + fields[1..] == fields;
    }
  }

  // ---------------------------------------------------------------------
  // Stage 2: [x.strip() for x in fields if x.strip()]
  // ---------------------------------------------------------------------

  /** `x` without its leading whitespace. */
  function StripLeading(x: string): (r: string)
    ensures |r| <= |x|
  {
    if x != [] && IsSpace(x[0]) then StripLeading(x[1..]) else x
  }

  /** `x` without its trailing whitespace. */
  function StripTrailing(x: string): (r: string)
    ensures |r| <= |x|
  {
    if x != [] && IsSpace(x[|x| - 1]) then StripTrailing(x[..|x| - 1]) else x
  }

  /** Python's `str.strip()` with no argument; `StripSpec` states what it
      removes. */
  function Strip(x: string): (r: string)
    ensures |r| <= |x|
  {
    StripTrailing(StripLeading(x))
  }

  /** StripLeading removes a whitespace prefix, and the longest one. */
  lemma {:induction false} StripLeadingSpec(x: string)
    ensures var r := StripLeading(x);
      && |r| <= |x| && r == x[|x| - |r|..]
      && (forall k :: 0 <= k < |x| - |r| ==> IsSpace(x[k]))
      && (r != [] ==> !IsSpace(r[0]))
  {
    if x != [] && IsSpace(x[0]) {
      var r := StripLeading(x[1..]);
      StripLeadingSpec(x[1..]);
      assert StripLeading(x) == r;
      assert x[1..][|x| - 1 - |r|..] == x[|x| - |r|..];
      forall k | 0 <= k < |x| - |r| ensures IsSpace(x[k]) {
        if k > 0 {
          assert x[k] == x[1..][k - 1];
        }
      }
    }
  }

  /** StripTrailing removes a whitespace suffix, and the longest one. */
  lemma {:induction false} StripTrailingSpec(x: string)
    ensures var r := StripTrailing(x);
      && |r| <= |x| && r == x[..|r|]
      && (forall k :: |r| <= k < |x| ==> IsSpace(x[k]))
      && (r != [] ==> !IsSpace(r[|r| - 1]))
  {
    if x != [] && IsSpace(x[|x| - 1]) {
      var r := StripTrailing(x[..|x| - 1]);
      StripTrailingSpec(x[..|x| - 1]);
      assert StripTrailing(x) == r;
      assert x[..|x| - 1][..|r|] == x[..|r|];
      forall k | |r| <= k < |x| ensures IsSpace(x[k]) {
        if k < |x| - 1 {
          assert x[k] == x[..|x| - 1][k];
        }
      }
    }
  }

  /** What `strip()` promises: the result is empty exactly when `x` is all
      whitespace, otherwise it neither starts nor ends with whitespace, and
      a string without whitespace is returned unchanged. */
  lemma StripSpec(x: string)
    ensures |Strip(x)| <= |x|
    ensures Strip(x) == [] <==> forall k :: 0 <= k < |x| ==> IsSpace(x[k])
    ensures Strip(x) != [] ==> !IsSpace(Strip(x)[0]) && !IsSpace(Strip(x)[|Strip(x)| - 1])
    ensures SpaceFree(x) ==> Strip(x) == x
  {
    var y := StripLeading(x);
    StripLeadingSpec(x);
    StripTrailingSpec(y);
    var r := StripTrailing(y);
    if r != [] {
      assert r[0] == y[0];
    }
    if SpaceFree(x) && x != [] {
      assert !IsSpace(x[0]);
      assert y == x;
      assert !IsSpace(y[|y| - 1]);
    }
  }

  /** The list comprehension: strip every field, keep the non-empty results. */
  function FilterNonEmpty(fields: seq<string>): (r: seq<string>)
    ensures |r| <= |fields|
    ensures forall i :: 0 <= i < |r| ==> r[i] != []
  {
    if fields == [] then []
    else
      var t := Strip(fields[0]);
      (if t == [] then [] else [t]) + FilterNonEmpty(fields[1..])
  }

  /** Every kept value is the stripped form of some field. */
  lemma {:induction false} FilterNonEmptyStripped(fields: seq<string>)
    ensures forall t :: t in FilterNonEmpty(fields) ==> exists f :: f in fields && t == Strip(f)
  {
    if fields != [] {
      var t, rest := Strip(fields[0]), FilterNonEmpty(fields[1..]);
      var head := if t == [] then [] else [t];
      assert FilterNonEmpty(fields) == head + rest;
      FilterNonEmptyStripped(fields[1..]);
      forall u | u in head + rest ensures exists f :: f in fields && u == Strip(f) {
        if u in head {
          assert fields[0] in fields;
        } else {
          var f :| f in fields[1..] && u == Strip(f);
          assert f in fields;
        }
      }
    }
  }

  lemma {:induction false} FilterNonEmptyAppend(x: seq<string>, y: seq<string>)
    ensures FilterNonEmpty(x + y) == FilterNonEmpty(x) + FilterNonEmpty(y)
  {
    if x != [] {
      var t := Strip(x[0]);
      var head := if t == [] then [] else [t];
      assert (x + y)[0] == x[0] && (x + y)[1..] == x[1..] + y;
      assert FilterNonEmpty(x + y) == head + FilterNonEmpty(x[1..] + y);
      assert FilterNonEmpty(x) == head + FilterNonEmpty(x[1..]);
      FilterNonEmptyAppend(x[1..], y);
    } else {
      assert x + y == y;
    }
  }

  /** Fields never hold whitespace, so `strip()` changes none of them. */
  lemma SplitFieldsStripFixed(s: string)
    ensures forall i :: 0 <= i < |SplitFields(s)| ==> Strip(SplitFields(s)[i]) == SplitFields(s)[i]
  {
    var fields := SplitFields(s);
    SplitFieldsDelimiterFree(s);
    forall i | 0 <= i < |fields| ensures Strip(fields[i]) == fields[i] {
      assert SpaceFree(fields[i]);
      StripSpec(fields[i]);
    }
  }

  // ---------------------------------------------------------------------
  // The whole string branch
  // ---------------------------------------------------------------------

  /** The targets parsed from a string "target" value; the lemmas below
      characterise them as the maximal delimiter-free runs of `s`. */
  function ParseTargets(s: string): (r: seq<string>)
    ensures |r| <= |Delimiters(s)| + 1
    ensures forall i :: 0 <= i < |r| ==> r[i] != []
  {
    FilterNonEmpty(SplitFields(s))
  }

  /** Every target is non-empty, holds no `,`, `;` or whitespace, and is left
      unchanged by `strip()`; there is at most one more target than there
      are delimiter characters. */
  lemma ParseTargetsWellFormed(s: string)
    ensures |ParseTargets(s)| <= |Delimiters(s)| + 1
    ensures forall i :: 0 <= i < |ParseTargets(s)| ==>
              var t := ParseTargets(s)[i]; t != [] && DelimiterFree(t) && Strip(t) == t
  {
    var fields, r := SplitFields(s), ParseTargets(s);
    SplitFieldsStripFixed(s);
    SplitFieldsDelimiterFree(s);
    FilterNonEmptyStripped(fields);
    forall i | 0 <= i < |r| ensures r[i] != [] && DelimiterFree(r[i]) && Strip(r[i]) == r[i] {
      assert r[i] in r;
      var f :| f in fields && r[i] == Strip(f);
      var j :| 0 <= j < |fields| && fields[j] == f;
      assert DelimiterFree(f) && Strip(f) == f;
      assert SpaceFree(r[i]);
      StripSpec(r[i]);
    }
  }

  lemma {:induction false} ParseTargetsAtDelimiter(a: string, d: char, b: string)
    requires IsDelimiter(d)
    ensures ParseTargets(a + [d] + b) == ParseTargets(a) + ParseTargets(b)
  {
    SplitFieldsAtDelimiter(a, d, b);
    FilterNonEmptyAppend(SplitFields(a), SplitFields(b));
  }

  lemma ParseTargetsOfWord(w: string)
    requires w != [] && DelimiterFree(w)
    ensures ParseTargets(w) == [w]
  {
    SplitFieldsOfWord(w);
    assert SpaceFree(w);
    StripSpec(w);
  }

  lemma ParseTargetsOfEmpty()
    ensures ParseTargets("") == []
  {
    assert SplitFields("") == [""];
  }

  /** Leading delimiters contribute nothing. */
  lemma {:induction false} ParseTargetsAfterGap(g: string, x: string)
    requires AllDelimiters(g)
    ensures ParseTargets(g + x) == ParseTargets(x)
  {
    if g == [] {
      assert g + x == x;
    } else {
      var rest := g[1..] + x;
      assert g + x == [] + [g[0]] + rest;
      ParseTargetsAtDelimiter([], g[0], rest);
      ParseTargetsOfEmpty();
      assert ParseTargets(g + x) == ParseTargets(rest);
      assert AllDelimiters(g[1..]);
      ParseTargetsAfterGap(g[1..], x);
    }
  }

  /** A non-empty run of delimiters separates the targets on either side. */
  lemma ParseTargetsAroundGap(a: string, g: string, b: string)
    requires g != [] && AllDelimiters(g)
    ensures ParseTargets(a + g + b) == ParseTargets(a) + ParseTargets(b)
  {
    assert a + g + b == a + [g[0]] + (g[1..] + b);
    ParseTargetsAtDelimiter(a, g[0], g[1..] + b);
    ParseTargetsAfterGap(g[1..], b);
  }

  // ---------------------------------------------------------------------
  // Reference characterisation: the maximal delimiter-free runs, in order
  // ---------------------------------------------------------------------

  /** gaps[0] + toks[0] + gaps[1] + ... + toks[n-1] + gaps[n]. */
  function Weave(gaps: seq<string>, toks: seq<string>): string
    requires |gaps| == |toks| + 1
  {
    if toks == [] then gaps[0]
    else gaps[0] + toks[0] + Weave(gaps[1..], toks[1..])
  }

  /** `s` is the runs `toks` separated by the delimiter blocks `gaps`; the
      blocks between two runs are non-empty and the runs are non-empty and
      delimiter-free, so every run is maximal. */
  ghost predicate IsRunDecomposition(s: string, gaps: seq<string>, toks: seq<string>) {
    && |gaps| == |toks| + 1
    && (forall i :: 0 <= i < |gaps| ==> AllDelimiters(gaps[i]))
    && (forall i :: 0 < i < |toks| ==> gaps[i] != [])
    && (forall i :: 0 <= i < |toks| ==> toks[i] != [] && DelimiterFree(toks[i]))
    && Weave(gaps, toks) == s
  }

  /** Peels the second gap off a weave of at least two runs. */
  lemma WeaveTail(gaps: seq<string>, toks: seq<string>)
    requires |gaps| == |toks| + 1 && |toks| > 1
    ensures Weave(gaps[1..], toks[1..]) == gaps[1] + Weave([""] + gaps[2..], toks[1..])
  {
    var gaps' := [""] + gaps[2..];
    assert gaps'[0] == "" && gaps'[1..] == gaps[2..];
    assert gaps[1..][0] == gaps[1] && gaps[1..][1..] == gaps[2..];
    assert toks[1..][0] == toks[1] && toks[1..][1..] == toks[2..];
  }

  /** After the first run and the gap behind it, the rest is again a
      decomposition into maximal runs. */
  lemma DecompositionTail(s: string, gaps: seq<string>, toks: seq<string>)
    requires IsRunDecomposition(s, gaps, toks) && |toks| > 1
    ensures IsRunDecomposition(Weave([""] + gaps[2..], toks[1..]), [""] + gaps[2..], toks[1..])
  {
    var gaps' := [""] + gaps[2..];
    assert forall i :: 0 < i < |gaps'| ==> gaps'[i] == gaps[i + 1];
  }

  /** Any decomposition into maximal runs is the one the parser returns. */
  lemma {:induction false} RunDecompositionUnique(s: string, gaps: seq<string>, toks: seq<string>)
    requires IsRunDecomposition(s, gaps, toks)
    ensures ParseTargets(s) == toks
    decreases |toks|
  {
    if toks == [] {
      assert s == gaps[0] + [];
      ParseTargetsAfterGap(gaps[0], []);
    } else {
      var t := toks[0];
      var rest := Weave(gaps[1..], toks[1..]);
      assert s == gaps[0] + (t + rest);
      ParseTargetsAfterGap(gaps[0], t + rest);
      ParseTargetsOfWord(t);
      if |toks| == 1 {
        ParseTargetsOfEmpty();
        assert t + rest == t + gaps[1] + [];
        if gaps[1] == [] {
          assert t + rest == t;
        } else {
          ParseTargetsAroundGap(t, gaps[1], []);
        }
      } else {
        var gaps' := [""] + gaps[2..];
        var after := Weave(gaps', toks[1..]);
        WeaveTail(gaps, toks);
        DecompositionTail(s, gaps, toks);
        RunDecompositionUnique(after, gaps', toks[1..]);
        assert t + rest == t + gaps[1] + after;
        ParseTargetsAroundGap(t, gaps[1], after);
        assert [t] + toks[1..] == toks;
      }
    }
  }

  /** A delimiter in front extends the leading gap. */
  lemma DecompositionConsDelimiter(c: char, s: string, g: seq<string>, t: seq<string>)
    requires IsDelimiter(c) && IsRunDecomposition(s, g, t)
    ensures IsRunDecomposition([c] + s, [[c] + g[0]] + g[1..], t)
  {
    var gaps := [[c] + g[0]] + g[1..];
    assert gaps[1..] == g[1..];
    assert forall i :: 0 < i < |gaps| ==> gaps[i] == g[i];
    assert AllDelimiters(gaps[0]);
    if t != [] {
      AppendAssoc([c] + g[0], t[0], Weave(g[1..], t[1..]));
      AppendAssoc([c], g[0], t[0] + Weave(g[1..], t[1..]));
      AppendAssoc(g[0], t[0], Weave(g[1..], t[1..]));
    }
  }

  /** A non-delimiter in front of a run that starts `s` extends that run. */
  lemma DecompositionConsIntoRun(c: char, s: string, g: seq<string>, t: seq<string>)
    requires !IsDelimiter(c) && IsRunDecomposition(s, g, t)
    requires g[0] == [] && t != []
    ensures IsRunDecomposition([c] + s, g, [[c] + t[0]] + t[1..])
  {
    var toks := [[c] + t[0]] + t[1..];
    assert toks[1..] == t[1..];
    assert forall i :: 0 < i < |toks| ==> toks[i] == t[i];
    assert DelimiterFree(toks[0]);
    AppendAssoc([c], t[0], Weave(g[1..], t[1..]));
  }

  /** A non-delimiter in front of a gap (or of nothing) starts a new run. */
  lemma DecompositionConsNewRun(c: char, s: string, g: seq<string>, t: seq<string>)
    requires !IsDelimiter(c) && IsRunDecomposition(s, g, t)
    requires g[0] != [] || t == []
    ensures IsRunDecomposition([c] + s, [""] + g, [[c]] + t)
  {
    var gaps, toks := [""] + g, [[c]] + t;
    assert gaps[1..] == g && toks[1..] == t;
    assert forall i :: 0 < i < |gaps| ==> gaps[i] == g[i - 1];
    assert forall i :: 0 < i < |toks| ==> toks[i] == t[i - 1];
  }

  /** Every string has a decomposition into maximal delimiter-free runs. */
  lemma {:induction false} RunDecompositionOf(s: string) returns (gaps: seq<string>, toks: seq<string>)
    ensures IsRunDecomposition(s, gaps, toks)
    decreases |s|
  {
    if s == [] {
      gaps, toks := [""], [];
    } else {
      var c := s[0];
      var g, t := RunDecompositionOf(s[1..]);
      assert s == [c] + s[1..];
      if IsDelimiter(c) {
        DecompositionConsDelimiter(c, s[1..], g, t);
        gaps, toks := [[c] + g[0]] + g[1..], t;
      } else if g[0] == [] && t != [] {
        DecompositionConsIntoRun(c, s[1..], g, t);
        gaps, toks := g, [[c] + t[0]] + t[1..];
      } else {
        DecompositionConsNewRun(c, s[1..], g, t);
        gaps, toks := [""] + g, [[c]] + t;
      }
    }
  }

  /** The targets are exactly the maximal delimiter-free runs of `s`, in
      their original order and with duplicates. */
  lemma ParseTargetsAreMaximalRuns(s: string)
    ensures exists gaps :: IsRunDecomposition(s, gaps, ParseTargets(s))
  {
    var gaps, toks := RunDecompositionOf(s);
    RunDecompositionUnique(s, gaps, toks);
  }

  /** No targets exactly when the string is empty or only delimiters. */
  lemma ParseTargetsEmptyIff(s: string)
    ensures ParseTargets(s) == [] <==> AllDelimiters(s)
  {
    if AllDelimiters(s) {
      assert s + [] == s;
      ParseTargetsAfterGap(s, []);
      ParseTargetsOfEmpty();
    } else {
      var gaps, toks := RunDecompositionOf(s);
      RunDecompositionUnique(s, gaps, toks);
    }
  }

  // ---------------------------------------------------------------------
  // Idempotence under re-joining
  // ---------------------------------------------------------------------

  /** Python's `sep.join(toks)`. */
  function Join(toks: seq<string>, sep: string): string {
    if toks == [] then []
    else if |toks| == 1 then toks[0]
    else toks[0] + sep + Join(toks[1..], sep)
  }

  lemma {:induction false} ParseTargetsJoin(toks: seq<string>, sep: string)
    requires sep != [] && AllDelimiters(sep)
    requires forall i :: 0 <= i < |toks| ==> toks[i] != [] && DelimiterFree(toks[i])
    ensures ParseTargets(Join(toks, sep)) == toks
  {
    if toks != [] {
      ParseTargetsOfWord(toks[0]);
      if |toks| > 1 {
        ParseTargetsJoin(toks[1..], sep);
        ParseTargetsAroundGap(toks[0], sep, Join(toks[1..], sep));
        assert [toks[0]] + toks[1..] == toks;
      }
    }
  }

  /** Joining the targets with any non-empty block of delimiters (",", ";",
      " ", ...) and parsing again gives the same targets. */
  lemma ParseTargetsIdempotent(s: string, sep: string)
    requires sep != [] && AllDelimiters(sep)
    ensures ParseTargets(Join(ParseTargets(s), sep)) == ParseTargets(s)
  {
    ParseTargetsWellFormed(s);
    ParseTargetsJoin(ParseTargets(s), sep);
  }

  lemma ParseTargetsIdempotentCommaSemicolonSpace(s: string)
    ensures ParseTargets(Join(ParseTargets(s), ",")) == ParseTargets(s)
    ensures ParseTargets(Join(ParseTargets(s), ";")) == ParseTargets(s)
    ensures ParseTargets(Join(ParseTargets(s), " ")) == ParseTargets(s)
  {
    ParseTargetsIdempotent(s, ",");
    ParseTargetsIdempotent(s, ";");
    ParseTargetsIdempotent(s, " ");
  }

  /** The worked example: mixed comma, semicolon and space separators. */
  lemma ListOfThree<T>(x: T, y: T, z: T)
    ensures [x] + ([y] + [z]) == [x, y, z]
  {
  }

  lemma ExamplePieces()
    ensures DelimiterFree("a@x.com") && DelimiterFree("b@y.com") && DelimiterFree("c@z.com")
    ensures AllDelimiters(", ") && AllDelimiters(";  ")
  {
    assert IsDelimiter(',') && IsDelimiter(';') && IsDelimiter(' ');
    assert ", " == [','] + [' '] && ";  " == [';'] + [' '] + [' '];
  }

  lemma ParseTargetsExample()
    ensures ParseTargets("a@x.com" + ", " + "b@y.com" + ";  " + "c@z.com") == ["a@x.com", "b@y.com", "c@z.com"]
  {
    var a, b, c := "a@x.com", "b@y.com", "c@z.com";
    var comma, semi := ", ", ";  ";
    ExamplePieces();
    ParseTargetsOfWord(a);
    ParseTargetsOfWord(b);
    ParseTargetsOfWord(c);
    ParseTargetsAroundGap(b, semi, c);
    ParseTargetsAroundGap(a, comma, b + semi + c);
    AppendAssoc(a + comma, b + semi, c);
    AppendAssoc(a + comma, b, semi);
    AppendAssoc(a, comma, b + semi + c);
    AppendAssoc(b, semi, c);
    ListOfThree(a, b, c);
  }

  // ---------------------------------------------------------------------
  // _get_payload_info: the configuration lookup
  // ---------------------------------------------------------------------

  /** Why the "target" lookup fails: the decoded configuration is not an
      object (Python raises TypeError on subscripting), or has no "target"
      key (KeyError). */
  datatype LookupError = NotAnObject | MissingTarget

  /** The targets of a recipient whose configuration decoded to `config`. */
  function GetPayloadInfo(config: Value): (r: Result<seq<string>, LookupError>)
    ensures r.Failure? <==> !(config.JObject? && "target" in config.fields)
    ensures r.Failure? ==> r.error == (if config.JObject? then MissingTarget else NotAnObject)
    ensures r.Success? && !config.fields["target"].JString? ==> r.value == []
    ensures r.Success? && config.fields["target"].JString? ==>
              r.value == ParseTargets(config.fields["target"].s)
    ensures r.Success? ==> forall i :: 0 <= i < |r.value| ==> r.value[i] != [] && DelimiterFree(r.value[i])
  {
    match config
    case JObject(fields) =>
      if "target" !in fields then Failure(MissingTarget)
      else (
        match fields["target"]
        case JString(address) =>
          ParseTargetsWellFormed(address);
          Success(ParseTargets(address))
        case _ => Success([]))
    case _ => Failure(NotAnObject)
  }
}
