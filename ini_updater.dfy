/**
 * The static class `INIUpdater`: `ToINILine`, which classifies the raw lines
 * of one file while carrying the current section along, and `Merge`, which
 * inserts the template's new lines into the target and refreshes inline
 * comments.
 *
 * Each method is proved against a specification function: `ToIniLines`
 * against `Classify`, `Merge` against `MergeText`, whose merge loop is the
 * fold `MergePrefix` of `Step`.  The lemmas about these functions are in
 * module `MergeProperties`.
 */
module IniUpdater {

  import opened Wrappers
  import opened Text
  import opened IniLines

  // ---------------------------------------------------------------------
  // Classification with a section accumulator (`ToINILine`)
  // ---------------------------------------------------------------------

  /** The section in force after `lines`: the raw text of the last header
      among them, or "" when there is none. */
  function CurrentSection(lines: seq<Line>): string {
    if |lines| == 0 then ""
    else if lines[|lines| - 1].SectionHeader? then lines[|lines| - 1].text
    else CurrentSection(lines[..|lines| - 1])
  }

  /** Whether a raw line is rejected does not depend on the section it is
      read in, and neither does the exception. */
  lemma ParseFailureIgnoresSection(raw: string, section: string)
    ensures Parse(raw, section).Err? == Parse(raw, "").Err?
    ensures Parse(raw, section).Err? ==> Parse(raw, section) == Parse(raw, "")
  {
  }

  /**
   * The specification of `ToINILine`: every raw line is parsed in the section
   * of the last header before it, and the first line that cannot be parsed
   * aborts the whole scan with its exception (`ClassifyFails`).
   */
  function Classify(ini: seq<string>): (r: Result<seq<Line>, ParseError>)
    ensures r.Ok? ==> |r.value| == |ini|
    ensures r.Ok? ==> forall k :: 0 <= k < |ini| ==>
                        Parse(ini[k], CurrentSection(r.value[..k])) == Ok(r.value[k])
  {
    if |ini| == 0 then
      Ok([])
    else
      var init := Classify(ini[..|ini| - 1]);
      if init.Err? then
        Err(init.error)
      else
        var line := Parse(ini[|ini| - 1], CurrentSection(init.value));
        if line.Err? then
          Err(line.error)
        else
          AppendKeepsPrefixes(init.value, line.value);
          Ok(init.value + [line.value])
  }

  lemma AppendKeepsPrefixes(s: seq<Line>, x: Line)
    ensures forall k :: 0 <= k <= |s| ==> (s + [x])[..k] == s[..k]
  {
  }

  /** The scan succeeds exactly when every raw line parses (in any section). */
  lemma {:induction false} ClassifySucceeds(ini: seq<string>)
    ensures Classify(ini).Ok? <==> forall k :: 0 <= k < |ini| ==> Parse(ini[k], "").Ok?
  {
    if |ini| > 0 {
      var init := ini[..|ini| - 1];
      ClassifySucceeds(init);
      ClassifyStep(ini);
      assert forall k :: 0 <= k < |init| ==> init[k] == ini[k];
    }
  }

  lemma ClassifyStep(ini: seq<string>)
    requires |ini| > 0
    ensures Classify(ini).Ok? <==> Classify(ini[..|ini| - 1]).Ok? && Parse(ini[|ini| - 1], "").Ok?
  {
    var init := ini[..|ini| - 1];
    if Classify(init).Ok? {
      ParseFailureIgnoresSection(ini[|ini| - 1], CurrentSection(Classify(init).value));
    }
  }

  /** A failed scan reports the exception of the first raw line that does
      not parse. */
  lemma {:induction false} ClassifyFails(ini: seq<string>)
    requires Classify(ini).Err?
    ensures exists k :: && 0 <= k < |ini| && Parse(ini[k], "") == Err(Classify(ini).error)
                        && forall j :: 0 <= j < k ==> Parse(ini[j], "").Ok?
  {
    var init := ini[..|ini| - 1];
    assert forall k :: 0 <= k < |init| ==> init[k] == ini[k];
    if Classify(init).Err? {
      ClassifyFails(init);
    } else {
      ClassifySucceeds(init);
      ParseFailureIgnoresSection(ini[|ini| - 1], CurrentSection(Classify(init).value));
    }
  }

  /** A scan that fails on a prefix fails on the whole input, with the same
      exception. */
  lemma {:induction false} ClassifyKeepsError(ini: seq<string>, n: nat)
    requires n <= |ini| && Classify(ini[..n]).Err?
    ensures Classify(ini) == Classify(ini[..n])
    decreases |ini| - n
  {
    if n == |ini| {
      assert ini[..n] == ini;
    } else {
      var init := ini[..|ini| - 1];
      assert init[..n] == ini[..n];
      ClassifyKeepsError(init, n);
    }
  }

  /** The section carried along is the text of the last header so far, or ""
      when there is none yet. */
  lemma {:induction false} CurrentSectionIsLastHeader(lines: seq<Line>)
    ensures || (CurrentSection(lines) == "" && forall j :: 0 <= j < |lines| ==> !lines[j].SectionHeader?)
            || exists h :: && 0 <= h < |lines| && lines[h].SectionHeader?
                           && CurrentSection(lines) == lines[h].text
                           && forall j :: h < j < |lines| ==> !lines[j].SectionHeader?
  {
    if |lines| > 0 && !lines[|lines| - 1].SectionHeader? {
      var init := lines[..|lines| - 1];
      CurrentSectionIsLastHeader(init);
      assert forall j :: 0 <= j < |init| ==> init[j] == lines[j];
    }
  }

  /** Every classified line other than a header belongs to the section opened
      by the last header above it, and to "" above the first header. */
  lemma ClassifiedSections(ini: seq<string>, k: nat)
    requires Classify(ini).Ok? && k < |ini|
    ensures var lines := Classify(ini).value;
            !lines[k].SectionHeader? ==>
              || (lines[k].section == "" && forall j :: 0 <= j < k ==> !lines[j].SectionHeader?)
              || exists h :: && 0 <= h < k && lines[h].SectionHeader? && lines[k].section == lines[h].text
                             && forall j :: h < j < k ==> !lines[j].SectionHeader?
  {
    var lines := Classify(ini).value;
    assert Parse(ini[k], CurrentSection(lines[..k])) == Ok(lines[k]);
    LastHeaderOfPrefix(lines, k);
  }

  lemma LastHeaderOfPrefix(lines: seq<Line>, k: nat)
    requires k <= |lines|
    ensures || (CurrentSection(lines[..k]) == "" && forall j :: 0 <= j < k ==> !lines[j].SectionHeader?)
            || exists h :: && 0 <= h < k && lines[h].SectionHeader?
                           && CurrentSection(lines[..k]) == lines[h].text
                           && forall j :: h < j < k ==> !lines[j].SectionHeader?
  {
    CurrentSectionIsLastHeader(lines[..k]);
    assert forall j :: 0 <= j < k ==> lines[..k][j] == lines[j];
  }

  /** `ToINILine`: the loop of INIUpdater.cs that builds the line list and
      updates `currentSection` on each header. */
  method ToIniLines(ini: seq<string>) returns (r: Result<seq<Line>, ParseError>)
    ensures r == Classify(ini)
  {
    var result: seq<Line> := [];
    var currentSection := "";
    for i := 0 to |ini|
      invariant Classify(ini[..i]) == Ok(result)
      invariant currentSection == CurrentSection(result)
    {
      assert ini[..i + 1][..i] == ini[..i];
      var line := Parse(ini[i], currentSection);
      if line.Err? {
        ClassifyKeepsError(ini, i + 1);
        return Err(line.error);
      }
      if line.value.SectionHeader? {
        currentSection := line.value.text;
      }
      result := result + [line.value];
    }
    assert ini[..|ini|] == ini;
    return Ok(result);
  }

  // ---------------------------------------------------------------------
  // The merge (`Merge`)
  // ---------------------------------------------------------------------

  /** The identities of a list's lines: what `Equals` tells apart. */
  function Identities(lines: seq<Line>): set<Identity> {
    if |lines| == 0 then {} else {IdentityOf(lines[0])} + Identities(lines[1..])
  }

  /** Some line of `lines` equals `x`. */
  predicate Present(lines: seq<Line>, x: Line) {
    IdentityOf(x) in Identities(lines)
  }

  /** `List.IndexOf`: the first position whose line equals `x` (the list
      element is the receiver of `Equals`), or -1 when there is none. */
  function IndexOfLine(lines: seq<Line>, x: Line): (r: int)
    ensures -1 <= r < |lines|
    ensures r == -1 <==> !Present(lines, x)
    ensures r >= 0 ==> Eq(lines[r], x) && forall j :: 0 <= j < r ==> !Eq(lines[j], x)
  {
    if |lines| == 0 then -1
    else if Eq(lines[0], x) then 0
    else
      var k := IndexOfLine(lines[1..], x);
      assert forall j :: 1 <= j < |lines| ==> lines[1..][j - 1] == lines[j];
      if k == -1 then -1 else k + 1
  }

  lemma {:induction false} IdentitiesOfConcat(a: seq<Line>, b: seq<Line>)
    ensures Identities(a + b) == Identities(a) + Identities(b)
  {
    if |a| > 0 {
      assert (a + b)[1..] == a[1..] + b;
      IdentitiesOfConcat(a[1..], b);
    } else {
      assert a + b == b;
    }
  }

  lemma {:induction false} IdentityOfElement(lines: seq<Line>, j: nat)
    requires j < |lines|
    ensures IdentityOf(lines[j]) in Identities(lines)
  {
    if j > 0 {
      IdentityOfElement(lines[1..], j - 1);
    }
  }

  lemma IdentitiesOfCons(x: Line, rest: seq<Line>)
    ensures Identities([x] + rest) == {IdentityOf(x)} + Identities(rest)
  {
    assert ([x] + rest)[1..] == rest;
  }

  /** The merge overwrites a matched line's inline comment when the template
      line's comment is not blank and differs from it. */
  predicate UpdatesComment(t: Line, matched: Line)
    ensures UpdatesComment(t, matched) ==> t.Config? && t.inlineComment.Some?
  {
    !IsNullOrBlank(t.InlineComment()) && t.InlineComment() != matched.InlineComment()
  }

  /** Replacing a line by one of the same identity keeps the identities. */
  lemma IdentitiesAfterUpdate(lines: seq<Line>, m: nat, l: Line)
    requires m < |lines| && IdentityOf(l) == IdentityOf(lines[m])
    ensures Identities(lines[m := l]) == Identities(lines)
  {
    var front, back := lines[..m], lines[m + 1..];
    assert lines[m := l] == front + ([l] + back);
    assert lines == front + ([lines[m]] + back);
    IdentitiesOfConcat(front, [l] + back);
    IdentitiesOfConcat(front, [lines[m]] + back);
    IdentitiesOfCons(l, back);
    IdentitiesOfCons(lines[m], back);
  }

  /** `List.Insert(p, t)`: `t` placed before the line at position `p`. */
  function Insert(lines: seq<Line>, p: nat, t: Line): (r: seq<Line>)
    requires p <= |lines|
    ensures |r| == |lines| + 1
  {
    if p == 0 then [t] + lines else [lines[0]] + Insert(lines[1..], p - 1, t)
  }

  /** Inserting at `p` keeps the `p` lines before and shifts the rest by one. */
  lemma {:induction false} InsertSplices(lines: seq<Line>, p: nat, t: Line)
    requires p <= |lines|
    ensures Insert(lines, p, t) == lines[..p] + [t] + lines[p..]
  {
    if p > 0 {
      InsertSplices(lines[1..], p - 1, t);
      assert [lines[0]] + lines[1..][..p - 1] == lines[..p];
      assert lines[1..][p - 1..] == lines[p..];
    }
  }

  /** Inserting `t` adds its identity and no other. */
  lemma IdentitiesAfterInsert(lines: seq<Line>, p: nat, t: Line)
    requires p <= |lines|
    ensures Identities(Insert(lines, p, t)) == Identities(lines) + {IdentityOf(t)}
  {
    InsertSplices(lines, p, t);
    IdentitiesOfSplit(lines, p);
    IdentitiesOfSplice(lines[..p], t, lines[p..]);
    InsertIntoUnion(Identities(lines[..p] + [t] + lines[p..]), Identities(lines),
                    Identities(lines[..p]), Identities(lines[p..]), IdentityOf(t));
  }

  lemma IdentitiesOfSplit(lines: seq<Line>, p: nat)
    requires p <= |lines|
    ensures Identities(lines) == Identities(lines[..p]) + Identities(lines[p..])
  {
    assert lines[..p] + lines[p..] == lines;
    IdentitiesOfConcat(lines[..p], lines[p..]);
  }

  lemma IdentitiesOfSplice(front: seq<Line>, t: Line, back: seq<Line>)
    ensures Identities(front + [t] + back) == Identities(front) + {IdentityOf(t)} + Identities(back)
  {
    IdentitiesOfConcat(front + [t], back);
    IdentitiesOfConcat(front, [t]);
    IdentitiesOfSingleton(t);
  }

  lemma IdentitiesOfSingleton(x: Line)
    ensures Identities([x]) == {IdentityOf(x)}
  {
    assert [x][1..] == [];
  }

  lemma InsertIntoUnion<T>(r: set<T>, all: set<T>, front: set<T>, back: set<T>, x: T)
    requires r == front + {x} + back && all == front + back
    ensures r == all + {x}
  {
  }

  /**
   * One turn of the merge loop, for template line `i`.  If a line equal to
   * it is present, its inline comment may be refreshed; otherwise the template
   * line is inserted at the front (`i == 0`) or right after the first line
   * equal to template line `i - 1`.  During a merge that anchor is always
   * present (`MergePrefixHasTemplateLines`), so the source's
   * `do ... while (idx == -1)` retry finds it at once.
   */
  function Step(lines: seq<Line>, tmpl: seq<Line>, i: nat): (r: seq<Line>)
    requires i < |tmpl|
    ensures |r| == if Present(lines, tmpl[i]) then |lines| else |lines| + 1
  {
    var t := tmpl[i];
    var oldIndex := IndexOfLine(lines, t);
    if oldIndex != -1 then
      if UpdatesComment(t, lines[oldIndex]) then
        lines[oldIndex := WithInlineComment(lines[oldIndex], t.InlineComment())]
      else
        lines
    else
      var p := if i == 0 then 0 else IndexOfLine(lines, tmpl[i - 1]) + 1;
      Insert(lines, p, t)
  }

  /** A turn adds the template line's identity and no other, and adds a line
      exactly when no equal line was present. */
  lemma StepIdentities(lines: seq<Line>, tmpl: seq<Line>, i: nat)
    requires i < |tmpl|
    ensures Identities(Step(lines, tmpl, i)) == Identities(lines) + {IdentityOf(tmpl[i])}
    ensures |Step(lines, tmpl, i)| == if Present(lines, tmpl[i]) then |lines| else |lines| + 1
  {
    var t := tmpl[i];
    var oldIndex := IndexOfLine(lines, t);
    if oldIndex != -1 {
      if UpdatesComment(t, lines[oldIndex]) {
        IdentitiesAfterUpdate(lines, oldIndex, WithInlineComment(lines[oldIndex], t.InlineComment()));
      }
    } else {
      var p := if i == 0 then 0 else IndexOfLine(lines, tmpl[i - 1]) + 1;
      IdentitiesAfterInsert(lines, p, t);
    }
  }

  /** The target after the first `n` turns of the merge loop. */
  function MergePrefix(tmpl: seq<Line>, target: seq<Line>, n: nat): seq<Line>
    requires n <= |tmpl|
  {
    if n == 0 then target else Step(MergePrefix(tmpl, target, n - 1), tmpl, n - 1)
  }

  /** The lines present after `n` turns are those of the target and of the
      first `n` template lines. */
  lemma {:induction false} MergePrefixIdentities(tmpl: seq<Line>, target: seq<Line>, n: nat)
    requires n <= |tmpl|
    ensures Identities(MergePrefix(tmpl, target, n)) == Identities(target) + Identities(tmpl[..n])
  {
    if n == 0 {
      assert Identities(tmpl[..0]) == {};
    } else {
      MergePrefixIdentities(tmpl, target, n - 1);
      NextTurnIdentities(tmpl, target, n);
      IdentitiesOfLongerPrefix(tmpl, n);
      UnionSteps(Identities(MergePrefix(tmpl, target, n)), Identities(MergePrefix(tmpl, target, n - 1)),
                 Identities(target), Identities(tmpl[..n - 1]), Identities(tmpl[..n]), IdentityOf(tmpl[n - 1]));
    }
  }

  lemma NextTurnIdentities(tmpl: seq<Line>, target: seq<Line>, n: nat)
    requires 0 < n <= |tmpl|
    ensures Identities(MergePrefix(tmpl, target, n))
            == Identities(MergePrefix(tmpl, target, n - 1)) + {IdentityOf(tmpl[n - 1])}
  {
    StepIdentities(MergePrefix(tmpl, target, n - 1), tmpl, n - 1);
  }

  lemma UnionSteps<T>(r: set<T>, prev: set<T>, target: set<T>, shorter: set<T>, longer: set<T>, x: T)
    requires r == prev + {x} && prev == target + shorter && longer == shorter + {x}
    ensures r == target + longer
  {
  }

  /** Every template line handled so far is present: the anchor of the next
      turn is always found. */
  lemma MergePrefixHasTemplateLines(tmpl: seq<Line>, target: seq<Line>, n: nat)
    requires n <= |tmpl|
    ensures forall k :: 0 <= k < n ==> Present(MergePrefix(tmpl, target, n), tmpl[k])
  {
    MergePrefixIdentities(tmpl, target, n);
    PrefixIdentities(tmpl, n);
  }

  /** Every template line handled so far is present in the merge. */
  lemma PrefixIdentities(tmpl: seq<Line>, n: nat)
    requires n <= |tmpl|
    ensures forall k :: 0 <= k < n ==> IdentityOf(tmpl[k]) in Identities(tmpl[..n])
  {
    forall k | 0 <= k < n ensures IdentityOf(tmpl[k]) in Identities(tmpl[..n]) {
      IdentityOfElement(tmpl[..n], k);
    }
  }

  lemma IdentitiesOfLongerPrefix(tmpl: seq<Line>, n: nat)
    requires 0 < n <= |tmpl|
    ensures Identities(tmpl[..n]) == Identities(tmpl[..n - 1]) + {IdentityOf(tmpl[n - 1])}
  {
    assert tmpl[..n] == tmpl[..n - 1] + [tmpl[n - 1]];
    IdentitiesOfConcat(tmpl[..n - 1], [tmpl[n - 1]]);
    IdentitiesOfCons(tmpl[n - 1], []);
    assert [tmpl[n - 1]] + [] == [tmpl[n - 1]];
  }

  /** The merged line list: the whole template merged into the target. */
  function Merged(tmpl: seq<Line>, target: seq<Line>): seq<Line> {
    MergePrefix(tmpl, target, |tmpl|)
  }

  /** `ToString()` of every line, in order. */
  function RenderAll(lines: seq<Line>): (r: seq<string>)
    ensures |r| == |lines|
    ensures forall j :: 0 <= j < |lines| ==> r[j] == Render(lines[j])
  {
    if |lines| == 0 then []
    else RenderAll(lines[..|lines| - 1]) + [Render(lines[|lines| - 1])]
  }

  /** The specification of `Merge`: classify the template, then the target
      (either failure aborts), merge, and render every line. */
  function MergeText(newIni: seq<string>, oldIni: seq<string>): (r: Result<seq<string>, ParseError>)
    ensures r.Ok? <==> Classify(newIni).Ok? && Classify(oldIni).Ok?
  {
    var newLines :- Classify(newIni);
    var oldLines :- Classify(oldIni);
    Ok(RenderAll(Merged(newLines, oldLines)))
  }

  /** `INIUpdater.Merge(newINI, oldINI)`: classify both files, run the merge
      loop over the template lines, then render the result. */
  method Merge(newIni: seq<string>, oldIni: seq<string>) returns (r: Result<seq<string>, ParseError>)
    ensures r == MergeText(newIni, oldIni)
  {
    var parsedNew := ToIniLines(newIni);
    if parsedNew.Err? {
      return Err(parsedNew.error);
    }
    var parsedOld := ToIniLines(oldIni);
    if parsedOld.Err? {
      return Err(parsedOld.error);
    }
    var merged := MergeLines(parsedNew.value, parsedOld.value);
    var final := RenderLines(merged);
    return Ok(final);
  }

  /** The merge loop of `Merge`, updating `oldLines` template line by
      template line. */
  method MergeLines(newLines: seq<Line>, target: seq<Line>) returns (oldLines: seq<Line>)
    ensures oldLines == Merged(newLines, target)
  {
    oldLines := target;
    for i := 0 to |newLines|
      invariant oldLines == MergePrefix(newLines, target, i)
    {
      MergePrefixHasTemplateLines(newLines, target, i);
      oldLines := MergeTurn(oldLines, newLines, i);
    }
  }

  /** The body of the merge loop for template line `i`: refresh the inline
      comment of the first equal line, or insert the template line at the
      front or after the first line equal to its predecessor. */
  method MergeTurn(oldLines: seq<Line>, newLines: seq<Line>, i: nat) returns (r: seq<Line>)
    requires i < |newLines|
    requires i == 0 || Present(oldLines, newLines[i - 1])
    ensures r == Step(oldLines, newLines, i)
  {
    r := oldLines;
    var oldIndex := IndexOfLine(r, newLines[i]);
    if oldIndex != -1 {
      if UpdatesComment(newLines[i], r[oldIndex]) {
        r := r[oldIndex := WithInlineComment(r[oldIndex], newLines[i].InlineComment())];
      }
    } else if i == 0 {
      r := Insert(r, 0, newLines[i]);
    } else {
      var lastLine := newLines[i - 1];
      // The anchor is an earlier template line, hence present: one lookup
      // finds it, where the source retries until it does.
      var idx := IndexOfLine(r, lastLine);
      assert idx != -1;
      r := Insert(r, idx + 1, newLines[i]);
    }
  }

  /** The closing loop of `Merge`: `ToString()` of every merged line. */
  method RenderLines(lines: seq<Line>) returns (final: seq<string>)
    ensures final == RenderAll(lines)
  {
    final := [];
    for j := 0 to |lines|
      invariant final == RenderAll(lines[..j])
    {
      assert lines[..j + 1][..j] == lines[..j];
      final := final + [Render(lines[j])];
    }
    assert lines[..|lines|] == lines;
  }
}
