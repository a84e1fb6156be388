/** The reply sanitiser of the chat handler: five string steps applied in
    order to the upstream completion text.

      1. `trim()`
      2. `replace(/(\n\s*){3,}/g, '\n\n')`
      3. `replace(/\s{2,}/g, ' ')`
      4. `replace(/�/g, '')`
      5. `slice(0, 1500)`

    Each global replacement is written as the left-to-right scan the regular
    expression engine performs: at each position either the pattern matches
    (the match is replaced and the scan resumes after it) or the code unit is
    copied and the scan moves on by one. */
module Sanitizer {
  import opened JsString

  /** The cap applied by the final `slice`. */
  const MaxReplyLength: nat := 1500

  /** Number of line feeds in `w`. */
  function CountLF(w: JsStr): (n: nat)
    ensures n <= |w|
  {
    if w == [] then 0 else (if w[0] == LF then 1 else 0) + CountLF(w[1..])
  }

  /** The code units of `s` that are not white space, in order. */
  function Text(s: JsStr): JsStr {
    if s == [] then [] else (if IsWS(s[0]) then [] else [s[0]]) + Text(s[1..])
  }

  /** Neither `\s{2,}` nor anything longer can match: no two white-space code
      units stand next to each other. */
  predicate NoAdjacentWs(s: JsStr) {
    forall i :: 0 <= i < |s| - 1 ==> !IsWS(s[i]) || !IsWS(s[i + 1])
  }

  /** Step 2. `(\n\s*){3,}` matches at position 0 exactly when `s` starts with
      a line feed and the white-space run at the front of `s` holds at least
      three line feeds; the last `\s*` is greedy, so the match covers the whole
      run. */
  function CollapseNewlines(s: JsStr): (r: JsStr)
    ensures |r| <= |s|
  {
    if s == [] then []
    else
      var k := LeadWs(s);
      if s[0] == LF && CountLF(s[..k]) >= 3 then [LF, LF] + CollapseNewlines(s[k..])
      else [s[0]] + CollapseNewlines(s[1..])
  }

  /** Step 3. `\s{2,}` matches at position 0 exactly when the white-space run
      at the front of `s` is at least two code units long, and covers it. */
  function CollapseSpaces(s: JsStr): (r: JsStr)
    ensures |r| <= |s|
  {
    if s == [] then []
    else
      var k := LeadWs(s);
      if k >= 2 then [SP] + CollapseSpaces(s[k..])
      else [s[0]] + CollapseSpaces(s[1..])
  }

  /** Step 4: every U+FFFD removed, everything else kept in order. */
  function StripReplacement(s: JsStr): (r: JsStr)
    ensures |r| <= |s|
    ensures NoReplacement(r)
    ensures NoReplacement(s) ==> r == s
  {
    if s == [] then []
    else (if s[0] == ReplacementChar then [] else [s[0]]) + StripReplacement(s[1..])
  }

  /** Steps 1 to 3. */
  function Collapsed(raw: JsStr): JsStr {
    CollapseSpaces(CollapseNewlines(Trim(raw)))
  }

  /** Steps 1 to 4: the text the final `slice` cuts. */
  function Stripped(raw: JsStr): JsStr {
    StripReplacement(Collapsed(raw))
  }

  /** The whole pipeline. The reply never exceeds the cap, is the step-4 text
      cut at the cap, and holds no U+FFFD. */
  function Sanitize(raw: JsStr): (r: JsStr)
    ensures |r| <= MaxReplyLength
    ensures r <= Stripped(raw)
    ensures |r| == Min(MaxReplyLength, |Stripped(raw)|)
    ensures NoReplacement(r)
  {
    Prefix(Stripped(raw), MaxReplyLength)
  }

  // ---------------------------------------------------------------------
  // Elementary facts about the helpers

  lemma {:induction false} TextAppend(a: JsStr, b: JsStr)
    ensures Text(a + b) == Text(a) + Text(b)
  {
    if a != [] {
      var h := if IsWS(a[0]) then [] else [a[0]];
      calc {
        Text(a + b);
        { assert (a + b)[0] == a[0]; assert (a + b)[1..] == a[1..] + b; }
        h + Text(a[1..] + b);
        { TextAppend(a[1..], b); }
        h + (Text(a[1..]) + Text(b));
        (h + Text(a[1..])) + Text(b);
      }
    } else {
      assert a + b == b;
    }
  }

  lemma {:induction false} TextOfWs(w: JsStr)
    requires AllWs(w)
    ensures Text(w) == []
  {
    if w != [] {
      TextOfWs(w[1..]);
    }
  }

  /** A white-space run `w` followed by text that does not start with white
      space: the run at the front of `w + v` is exactly `w`. */
  lemma {:induction false} LeadWsOfRun(w: JsStr, v: JsStr)
    requires AllWs(w)
    requires v == [] || !IsWS(v[0])
    ensures LeadWs(w + v) == |w|
  {
    if w != [] {
      assert (w + v)[1..] == w[1..] + v;
      LeadWsOfRun(w[1..], v);
    }
  }

  // ---------------------------------------------------------------------
  // Both collapse steps touch white space only

  lemma {:induction false} CollapseNewlinesKeepsText(s: JsStr)
    ensures Text(CollapseNewlines(s)) == Text(s)
    decreases |s|
  {
    if s != [] {
      var k := LeadWs(s);
      if s[0] == LF && CountLF(s[..k]) >= 3 {
        CollapseNewlinesKeepsText(s[k..]);
        TextAppend([LF, LF], CollapseNewlines(s[k..]));
        assert s == s[..k] + s[k..];
        TextAppend(s[..k], s[k..]);
        LeadWsIsWs(s);
        TextOfWs(s[..k]);
        TextOfWs([LF, LF]);
      } else {
        CollapseNewlinesKeepsText(s[1..]);
        TextAppend([s[0]], CollapseNewlines(s[1..]));
        assert s == [s[0]] + s[1..];
        TextAppend([s[0]], s[1..]);
      }
    }
  }

  lemma {:induction false} CollapseSpacesKeepsText(s: JsStr)
    ensures Text(CollapseSpaces(s)) == Text(s)
    decreases |s|
  {
    if s != [] {
      var k := LeadWs(s);
      if k >= 2 {
        CollapseSpacesKeepsText(s[k..]);
        TextAppend([SP], CollapseSpaces(s[k..]));
        assert s == s[..k] + s[k..];
        TextAppend(s[..k], s[k..]);
        LeadWsIsWs(s);
        TextOfWs(s[..k]);
      } else {
        CollapseSpacesKeepsText(s[1..]);
        TextAppend([s[0]], CollapseSpaces(s[1..]));
        assert s == [s[0]] + s[1..];
        TextAppend([s[0]], s[1..]);
      }
    }
  }

  // ---------------------------------------------------------------------
  // The ends of the text are kept

  lemma {:induction false} CollapseNewlinesKeepsEnds(s: JsStr)
    requires s != [] && !IsWS(s[|s| - 1])
    ensures CollapseNewlines(s) != []
    ensures CollapseNewlines(s)[|CollapseNewlines(s)| - 1] == s[|s| - 1]
    decreases |s|
  {
    var k := LeadWs(s);
    LeadWsIsWs(s);
    if s[0] == LF && CountLF(s[..k]) >= 3 {
      CollapseNewlinesKeepsEnds(s[k..]);
    } else if |s| > 1 {
      CollapseNewlinesKeepsEnds(s[1..]);
    }
  }

  lemma {:induction false} CollapseSpacesKeepsEnds(s: JsStr)
    requires s != [] && !IsWS(s[|s| - 1])
    ensures CollapseSpaces(s) != []
    ensures CollapseSpaces(s)[|CollapseSpaces(s)| - 1] == s[|s| - 1]
    decreases |s|
  {
    var k := LeadWs(s);
    LeadWsIsWs(s);
    if k >= 2 {
      CollapseSpacesKeepsEnds(s[k..]);
    } else if |s| > 1 {
      CollapseSpacesKeepsEnds(s[1..]);
    }
  }

  /** Collapsing never starts its output with white space unless the input
      did. */
  lemma CollapseSpacesFront(s: JsStr)
    requires s != [] && !IsWS(s[0])
    ensures CollapseSpaces(s) != [] && CollapseSpaces(s)[0] == s[0]
  {
  }

  // ---------------------------------------------------------------------
  // Step 3 leaves no two adjacent white-space code units

  lemma {:induction false} CollapseSpacesNoAdjacent(s: JsStr)
    ensures NoAdjacentWs(CollapseSpaces(s))
    decreases |s|
  {
    if s != [] {
      var k := LeadWs(s);
      var rest := if k >= 2 then s[k..] else s[1..];
      var head := if k >= 2 then SP else s[0];
      CollapseSpacesNoAdjacent(rest);
      var tail := CollapseSpaces(rest);
      assert CollapseSpaces(s) == [head] + tail;
      if IsWS(head) && tail != [] {
        assert rest != [] && !IsWS(rest[0]);
        CollapseSpacesFront(rest);
      }
    }
  }

  /** Step 3 changes nothing in text that already has no adjacent white space;
      hence applying it twice is the same as applying it once. */
  lemma {:induction false} CollapseSpacesIdentity(s: JsStr)
    requires NoAdjacentWs(s)
    ensures CollapseSpaces(s) == s
    decreases |s|
  {
    if s != [] {
      assert LeadWs(s) < 2 by {
        if |s| > 1 && IsWS(s[0]) {
          assert !IsWS(s[1]);
        }
      }
      assert NoAdjacentWs(s[1..]) by {
        forall i | 0 <= i < |s[1..]| - 1
          ensures !IsWS(s[1..][i]) || !IsWS(s[1..][i + 1])
        {
          assert s[1..][i] == s[i + 1] && s[1..][i + 1] == s[i + 2];
        }
      }
      CollapseSpacesIdentity(s[1..]);
    }
  }

  lemma CollapseSpacesIdempotent(s: JsStr)
    ensures CollapseSpaces(CollapseSpaces(s)) == CollapseSpaces(s)
  {
    CollapseSpacesNoAdjacent(s);
    CollapseSpacesIdentity(CollapseSpaces(s));
  }

  // ---------------------------------------------------------------------
  // Step 2 is subsumed by step 3

  /** What step 2 makes of one whole white-space run. */
  function NewlineRun(w: JsStr): JsStr {
    if w == [] then []
    else if w[0] == LF && CountLF(w) >= 3 then [LF, LF]
    else [w[0]] + NewlineRun(w[1..])
  }

  /** `NewlineRun` in closed form. A run with fewer than three line feeds is
      not matched and is kept as it is. In a run with three or more, the match
      starts at the first line feed and reaches the end of the run: what
      precedes that line feed is kept and `'\n\n'` follows it. */
  lemma {:induction false} NewlineRunClosedForm(w: JsStr)
    ensures CountLF(w) < 3 ==> NewlineRun(w) == w
    ensures CountLF(w) >= 3 ==>
      exists j :: 0 <= j < |w| && w[j] == LF && CountLF(w[..j]) == 0 && NewlineRun(w) == w[..j] + [LF, LF]
  {
    if w != [] && !(w[0] == LF && CountLF(w) >= 3) {
      NewlineRunClosedForm(w[1..]);
      if CountLF(w) >= 3 {
        var j' :| 0 <= j' < |w[1..]| && w[1..][j'] == LF && CountLF(w[1..][..j']) == 0
          && NewlineRun(w[1..]) == w[1..][..j'] + [LF, LF];
        var j := j' + 1;
        assert w[..j][0] == w[0] && w[..j][1..] == w[1..][..j'];
        assert w[..j] == [w[0]] + w[1..][..j'];
        AppendAssoc([w[0]], w[1..][..j'], [LF, LF]);
        assert w[j] == LF && CountLF(w[..j]) == 0 && NewlineRun(w) == w[..j] + [LF, LF];
      }
    } else if w != [] {
      assert w[..0] + [LF, LF] == [LF, LF];
    }
  }

  /** What step 3 makes of one whole white-space run. */
  function SpaceRun(w: JsStr): JsStr {
    if |w| >= 2 then [SP] else w
  }

  lemma {:induction false} NewlineRunShape(w: JsStr)
    requires w != [] && AllWs(w)
    ensures NewlineRun(w) != [] && AllWs(NewlineRun(w))
    ensures |w| >= 2 <==> |NewlineRun(w)| >= 2
  {
    if !(w[0] == LF && CountLF(w) >= 3) && |w| > 1 {
      NewlineRunShape(w[1..]);
    }
  }

  /** Step 2 works run by run: a white-space run followed by text that does not
      start with white space. */
  lemma {:induction false} CollapseNewlinesRun(w: JsStr, v: JsStr)
    requires w != [] && AllWs(w)
    requires v == [] || !IsWS(v[0])
    ensures CollapseNewlines(w + v) == NewlineRun(w) + CollapseNewlines(v)
    decreases |w|
  {
    LeadWsOfRun(w, v);
    if w[0] == LF && CountLF(w) >= 3 {
      RunMatches(w, v);
    } else {
      if |w| > 1 {
        assert AllWs(w[1..]);
        CollapseNewlinesRun(w[1..], v);
        RunNoMatch(w, v);
      } else {
        RunNoMatchSingle(w, v);
      }
    }
  }

  /** One step of the scan at the start of a run that step 2 matches. */
  lemma RunMatches(w: JsStr, v: JsStr)
    requires w != [] && w[0] == LF && CountLF(w) >= 3
    requires LeadWs(w + v) == |w|
    ensures CollapseNewlines(w + v) == [LF, LF] + CollapseNewlines(v)
    ensures NewlineRun(w) == [LF, LF]
  {
    var s := w + v;
    assert s[0] == LF;
    assert s[..|w|] == w;
    assert s[|w|..] == v;
  }

  /** Where step 2 does not match at the front of a run, the scan copies
      one code unit. */
  lemma CollapseNewlinesCopies(w: JsStr, v: JsStr)
    requires w != [] && !(w[0] == LF && CountLF(w) >= 3)
    requires LeadWs(w + v) == |w|
    ensures CollapseNewlines(w + v) == [w[0]] + CollapseNewlines(w[1..] + v)
  {
    var s := w + v;
    assert s[0] == w[0] && s[..LeadWs(s)] == w;
    assert s[1..] == w[1..] + v;
  }

  /** One step of the scan at the start of a run that step 2 does not match. */
  lemma RunNoMatch(w: JsStr, v: JsStr)
    requires |w| > 1 && !(w[0] == LF && CountLF(w) >= 3)
    requires LeadWs(w + v) == |w|
    requires CollapseNewlines(w[1..] + v) == NewlineRun(w[1..]) + CollapseNewlines(v)
    ensures CollapseNewlines(w + v) == NewlineRun(w) + CollapseNewlines(v)
  {
    CollapseNewlinesCopies(w, v);
    AppendAssoc([w[0]], NewlineRun(w[1..]), CollapseNewlines(v));
  }

  /** The same for a run of one code unit. */
  lemma RunNoMatchSingle(w: JsStr, v: JsStr)
    requires |w| == 1
    requires LeadWs(w + v) == 1
    ensures CollapseNewlines(w + v) == NewlineRun(w) + CollapseNewlines(v)
  {
    CollapseNewlinesCopies(w, v);
    assert w[1..] + v == v;
  }

  lemma AppendAssoc(a: JsStr, b: JsStr, c: JsStr)
    ensures a + (b + c) == (a + b) + c
  {
  }

  /** Step 3 works run by run as well. */
  lemma CollapseSpacesRun(w: JsStr, v: JsStr)
    requires w != [] && AllWs(w)
    requires v == [] || !IsWS(v[0])
    ensures CollapseSpaces(w + v) == SpaceRun(w) + CollapseSpaces(v)
  {
    var s := w + v;
    LeadWsOfRun(w, v);
    assert s[|w|..] == v;
    if |w| < 2 {
      assert s[1..] == v;
    }
  }

  /** A non-white-space code unit passes through either collapse step. */
  lemma CollapseThroughText(c: CodeUnit, v: JsStr)
    requires !IsWS(c)
    ensures CollapseNewlines([c] + v) == [c] + CollapseNewlines(v)
    ensures CollapseSpaces([c] + v) == [c] + CollapseSpaces(v)
  {
    assert ([c] + v)[1..] == v;
  }

  /** Whatever step 2 does, step 3 folds each run it produced to the same
      result as the run it started from: the `'\n\n'` of step 2 becomes a
      single space, so step 2 has no effect on the reply. */
  lemma {:induction false} NewlineCollapseSubsumed(s: JsStr)
    ensures CollapseSpaces(CollapseNewlines(s)) == CollapseSpaces(s)
    decreases |s|
  {
    if s != [] {
      if !IsWS(s[0]) {
        assert s == [s[0]] + s[1..];
        CollapseThroughText(s[0], s[1..]);
        CollapseThroughText(s[0], CollapseNewlines(s[1..]));
        NewlineCollapseSubsumed(s[1..]);
      } else {
        var k := LeadWs(s);
        var w, v := s[..k], s[k..];
        LeadWsIsWs(s);
        assert s == w + v;
        CollapseNewlinesRun(w, v);
        NewlineRunShape(w);
        var v' := CollapseNewlines(v);
        if v != [] {
          CollapseNewlinesKeepsFront(v);
        }
        CollapseSpacesRun(NewlineRun(w), v');
        CollapseSpacesRun(w, v);
        NewlineCollapseSubsumed(v);
      }
    }
  }

  lemma CollapseNewlinesKeepsFront(s: JsStr)
    requires s != [] && !IsWS(s[0])
    ensures CollapseNewlines(s) != [] && CollapseNewlines(s)[0] == s[0]
  {
  }

  // ---------------------------------------------------------------------
  // No step before step 4 introduces U+FFFD

  lemma {:induction false} CollapseNewlinesNoReplacement(s: JsStr)
    requires NoReplacement(s)
    ensures NoReplacement(CollapseNewlines(s))
    decreases |s|
  {
    if s != [] {
      var k := LeadWs(s);
      if s[0] == LF && CountLF(s[..k]) >= 3 {
        CollapseNewlinesNoReplacement(s[k..]);
      } else {
        CollapseNewlinesNoReplacement(s[1..]);
      }
    }
  }

  lemma {:induction false} CollapseSpacesNoReplacement(s: JsStr)
    requires NoReplacement(s)
    ensures NoReplacement(CollapseSpaces(s))
    decreases |s|
  {
    if s != [] {
      var k := LeadWs(s);
      if k >= 2 {
        CollapseSpacesNoReplacement(s[k..]);
      } else {
        CollapseSpacesNoReplacement(s[1..]);
      }
    }
  }

  // ---------------------------------------------------------------------
  // The pipeline

  /** Trimming removes white space only. */
  lemma TrimKeepsText(raw: JsStr)
    ensures Text(Trim(raw)) == Text(raw)
  {
    var t := Trim(raw);
    var i := LeadWs(raw);
    var j := i + |t|;
    var pre, post := raw[..i], raw[j..];
    assert raw[..j] == pre + t by {
      assert raw[..j] == raw[..j][..i] + raw[..j][i..];
    }
    assert raw == (pre + t) + post by {
      assert raw == raw[..j] + raw[j..];
    }
    TextAppend(pre + t, post);
    TextAppend(pre, t);
    LeadWsIsWs(raw);
    TextOfWs(pre);
    TextOfWs(post);
  }

  /** After steps 1 to 3 the text neither starts nor ends with white space and
      has no two adjacent white-space code units, and its non-white-space text
      is exactly that of the raw reply. */
  lemma CollapsedShape(raw: JsStr)
    ensures var c := Collapsed(raw);
      (c != [] ==> !IsWS(c[0]) && !IsWS(c[|c| - 1]))
      && NoAdjacentWs(c)
      && Text(c) == Text(raw)
  {
    var t := Trim(raw);
    var n := CollapseNewlines(t);
    if t != [] {
      CollapseNewlinesKeepsEnds(t);
      CollapseNewlinesKeepsFront(t);
      CollapseSpacesKeepsEnds(n);
      CollapseSpacesFront(n);
    }
    CollapseSpacesNoAdjacent(n);
    CollapseSpacesKeepsText(n);
    CollapseNewlinesKeepsText(t);
    TrimKeepsText(raw);
  }

  /** The reply is the same whether or not step 2 is there. */
  lemma CollapsedIgnoresNewlineStep(raw: JsStr)
    ensures Collapsed(raw) == CollapseSpaces(Trim(raw))
  {
    NewlineCollapseSubsumed(Trim(raw));
  }

  /** For a raw reply without U+FFFD, step 4 changes nothing and the final
      reply keeps the "no two adjacent white-space code units" guarantee. */
  lemma SanitizedSpacing(raw: JsStr)
    requires NoReplacement(raw)
    ensures Stripped(raw) == Collapsed(raw)
    ensures NoAdjacentWs(Sanitize(raw))
  {
    var t := Trim(raw);
    assert NoReplacement(t);
    CollapseNewlinesNoReplacement(t);
    CollapseSpacesNoReplacement(CollapseNewlines(t));
    CollapsedShape(raw);
    var r := Sanitize(raw);
    assert r == Collapsed(raw)[..|r|];
  }

  /** A text whose ends are not white space is left alone by `trim`. */
  lemma TrimKeepsTrimmed(s: JsStr)
    requires s != [] && !IsWS(s[0]) && !IsWS(s[|s| - 1])
    ensures Trim(s) == s
  {
    assert LeadWs(s) == 0 && TrailWs(s) == 0;
    assert s[0..][..|s|] == s;
  }

  /** Step 4 on one code unit: U+FFFD is dropped, anything else is kept.
      With `StripAppend` this fixes step 4 on every input. */
  lemma StripUnit(c: CodeUnit)
    ensures StripReplacement([c]) == if c == ReplacementChar then [] else [c]
  {
    assert [c][1..] == [];
  }

  /** Step 4 removes every U+FFFD and no other code unit. */
  lemma {:induction false} StripCounts(s: JsStr)
    ensures multiset(StripReplacement(s)) == multiset(s)[ReplacementChar := 0]
  {
    if s != [] {
      StripCounts(s[1..]);
      assert s == [s[0]] + s[1..];
      assert multiset(s) == multiset([s[0]]) + multiset(s[1..]);
    }
  }

  /** Step 4 works piece by piece. */
  lemma {:induction false} StripAppend(x: JsStr, y: JsStr)
    ensures StripReplacement(x + y) == StripReplacement(x) + StripReplacement(y)
  {
    if x != [] {
      assert (x + y)[0] == x[0] && (x + y)[1..] == x[1..] + y;
      StripAppend(x[1..], y);
      AppendAssoc(if x[0] == ReplacementChar then [] else [x[0]], StripReplacement(x[1..]), StripReplacement(y));
    } else {
      assert x + y == y;
    }
  }

  /** Steps 1 to 3 leave `a � b` alone. */
  lemma GapSurvivesCollapse(a: CodeUnit, b: CodeUnit)
    requires !IsWS(a) && !IsWS(b)
    ensures Collapsed([a, SP, ReplacementChar, SP, b]) == [a, SP, ReplacementChar, SP, b]
  {
    var raw: JsStr := [a, SP, ReplacementChar, SP, b];
    TrimKeepsTrimmed(raw);
    assert NoAdjacentWs(raw);
    CollapseSpacesIdentity(raw);
    NewlineCollapseSubsumed(raw);
  }

  lemma StripGap(a: CodeUnit, b: CodeUnit)
    requires a != ReplacementChar && b != ReplacementChar
    ensures StripReplacement([a, SP, ReplacementChar, SP, b]) == [a, SP, SP, b]
  {
    StripDrop([a, SP], [SP, b]);
    assert NoReplacement([a, SP]) && NoReplacement([SP, b]);
    assert [a, SP, ReplacementChar, SP, b] == [a, SP] + [ReplacementChar] + [SP, b];
  }

  /** With a U+FFFD between two spaces the guarantee is lost: step 4 runs after
      step 3 and puts the two spaces next to each other. */
  lemma ReplacementReopensGap(a: CodeUnit, b: CodeUnit)
    requires !IsWS(a) && !IsWS(b) && a != ReplacementChar && b != ReplacementChar
    ensures Sanitize([a, SP, ReplacementChar, SP, b]) == [a, SP, SP, b]
    ensures !NoAdjacentWs(Sanitize([a, SP, ReplacementChar, SP, b]))
  {
    GapSurvivesCollapse(a, b);
    StripGap(a, b);
    var r := Sanitize([a, SP, ReplacementChar, SP, b]);
    assert r == [a, SP, SP, b];
    assert IsWS(r[1]) && IsWS(r[2]);
  }

  /** Steps 1 to 3 leave `a\n�\n�\nb` alone: no two white-space code units
      are adjacent. */
  lemma NewlinesSurviveCollapse(a: CodeUnit, b: CodeUnit)
    requires !IsWS(a) && !IsWS(b)
    ensures Collapsed([a, LF, ReplacementChar, LF, ReplacementChar, LF, b])
         == [a, LF, ReplacementChar, LF, ReplacementChar, LF, b]
  {
    var raw: JsStr := [a, LF, ReplacementChar, LF, ReplacementChar, LF, b];
    TrimKeepsTrimmed(raw);
    assert NoAdjacentWs(raw);
    CollapseSpacesIdentity(raw);
    NewlineCollapseSubsumed(raw);
  }

  /** Step 4 drops a U+FFFD and leaves both sides of it to themselves. */
  lemma StripDrop(x: JsStr, y: JsStr)
    ensures StripReplacement(x + [ReplacementChar] + y) == StripReplacement(x) + StripReplacement(y)
  {
    StripAppend(x + [ReplacementChar], y);
    StripAppend(x, [ReplacementChar]);
    StripUnit(ReplacementChar);
  }

  lemma StripNewlines(a: CodeUnit, b: CodeUnit)
    requires a != ReplacementChar && b != ReplacementChar
    ensures StripReplacement([a, LF, ReplacementChar, LF, ReplacementChar, LF, b]) == [a, LF, LF, LF, b]
  {
    var p: JsStr := [a, LF];
    var t: JsStr := [LF, b];
    var u: JsStr := [LF] + [ReplacementChar] + t;
    StripDrop([LF], t);
    assert NoReplacement([LF]) && NoReplacement(t);
    assert StripReplacement(u) == [LF] + t;
    StripDrop(p, u);
    assert NoReplacement(p);
    assert [a, LF, ReplacementChar, LF, ReplacementChar, LF, b] == p + [ReplacementChar] + u;
    assert p + ([LF] + t) == [a, LF, LF, LF, b];
  }

  /** U+FFFD also defeats step 2: U+FFFD between the line feeds keeps step 2
      from matching, and removing them then leaves three line feeds in a row. */
  lemma ReplacementReopensNewlines(a: CodeUnit, b: CodeUnit)
    requires !IsWS(a) && !IsWS(b) && a != ReplacementChar && b != ReplacementChar
    ensures Sanitize([a, LF, ReplacementChar, LF, ReplacementChar, LF, b]) == [a, LF, LF, LF, b]
  {
    NewlinesSurviveCollapse(a, b);
    StripNewlines(a, b);
  }

  /** Steps 1 to 3 turn `a\n\n\nb` into `a b`. */
  lemma ParagraphBreakCollapsed(a: CodeUnit, b: CodeUnit)
    requires !IsWS(a) && !IsWS(b)
    ensures Collapsed([a, LF, LF, LF, b]) == [a, SP, b]
  {
    var raw: JsStr := [a, LF, LF, LF, b];
    TrimKeepsTrimmed(raw);
    NewlineCollapseSubsumed(raw);
    assert raw == [a] + ([LF, LF, LF] + [b]);
    CollapseThroughText(a, [LF, LF, LF] + [b]);
    CollapseSpacesRun([LF, LF, LF], [b]);
    CollapseThroughText(b, []);
  }

  /** Paragraph breaks do not survive: three line feeds between two words come
      out as one space. */
  lemma ParagraphBreakBecomesSpace(a: CodeUnit, b: CodeUnit)
    requires !IsWS(a) && !IsWS(b) && a != ReplacementChar && b != ReplacementChar
    ensures Sanitize([a, LF, LF, LF, b]) == [a, SP, b]
  {
    ParagraphBreakCollapsed(a, b);
    assert NoReplacement([a, SP, b]);
  }

  /** A missing completion is sanitised to the empty reply. */
  lemma EmptyReply()
    ensures Sanitize([]) == []
  {
  }
}
