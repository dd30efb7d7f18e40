/**
 * What the merge promises: every template line ends up present, a present
 * line only has its inline comment refreshed, a missing line is inserted
 * right after its predecessor, the target's lines survive in order, the
 * number of inserted lines is the number of identities the target lacks, and
 * merging a second time inserts nothing.
 */
module MergeProperties {

  import opened Wrappers
  import opened Text
  import opened IniLines
  import opened IniUpdater
  import LineProperties

  // ---------------------------------------------------------------------
  // One turn of the loop
  // ---------------------------------------------------------------------

  /** A template line already present changes only the first line equal to
      it, and only its inline comment, which becomes the template's unless
      that is null or blank. */
  lemma StepOnMatch(lines: seq<Line>, tmpl: seq<Line>, i: nat)
    requires i < |tmpl|
    requires Present(lines, tmpl[i])
    ensures var r := Step(lines, tmpl, i);
            var m := IndexOfLine(lines, tmpl[i]);
            && |r| == |lines|
            && (forall j :: 0 <= j < |r| && j != m ==> r[j] == lines[j])
            && SameExceptComment(r[m], lines[m])
            && r[m].InlineComment() == if IsNullOrBlank(tmpl[i].InlineComment())
                                       then lines[m].InlineComment()
                                       else tmpl[i].InlineComment()
  {
    var m := IndexOfLine(lines, tmpl[i]);
    if !IsNullOrBlank(tmpl[i].InlineComment()) {
      assert tmpl[i].Config?;
      assert IdentityOf(lines[m]).key == IdentityOf(tmpl[i]).key;
      assert lines[m].Config?;
    }
  }

  /** A template line not yet present is inserted at the front when it is the
      first template line, and otherwise right after the first line equal to
      the template line before it; nothing else moves. */
  lemma StepOnMiss(lines: seq<Line>, tmpl: seq<Line>, i: nat)
    requires i < |tmpl| && (i == 0 || Present(lines, tmpl[i - 1]))
    requires !Present(lines, tmpl[i])
    ensures var r := Step(lines, tmpl, i);
            var p := if i == 0 then 0 else IndexOfLine(lines, tmpl[i - 1]) + 1;
            && 0 <= p <= |lines| && |r| == |lines| + 1
            && r[..p] == lines[..p] && r[p] == tmpl[i] && r[p + 1..] == lines[p..]
            && (i > 0 ==> Eq(lines[p - 1], tmpl[i - 1])
                          && forall j :: 0 <= j < p - 1 ==> !Eq(lines[j], tmpl[i - 1]))
  {
    var p := if i == 0 then 0 else IndexOfLine(lines, tmpl[i - 1]) + 1;
    InsertSplices(lines, p, tmpl[i]);
    var r := lines[..p] + [tmpl[i]] + lines[p..];
    assert r[..p] == lines[..p];
    assert r[p + 1..] == lines[p..];
  }

  // ---------------------------------------------------------------------
  // The whole merge
  // ---------------------------------------------------------------------

  /** The lines present after the merge are those of the target and of the
      template: in particular every template line. */
  lemma MergeHasTemplateLines(tmpl: seq<Line>, target: seq<Line>)
    ensures forall x :: Present(Merged(tmpl, target), x) <==> Present(target, x) || Present(tmpl, x)
    ensures forall k :: 0 <= k < |tmpl| ==> Present(Merged(tmpl, target), tmpl[k])
  {
    assert tmpl[..|tmpl|] == tmpl;
    MergePrefixIdentities(tmpl, target, |tmpl|);
    MergePrefixHasTemplateLines(tmpl, target, |tmpl|);
  }

  /** `pos` places the lines of `target`, in order, in `r`, each with at
      most its inline comment changed. */
  ghost predicate Embeds(pos: seq<int>, target: seq<Line>, r: seq<Line>) {
    && |pos| == |target|
    && (forall j :: 0 <= j < |pos| ==> 0 <= pos[j] < |r| && SameExceptComment(r[pos[j]], target[j]))
    && (forall j, k :: 0 <= j < k < |pos| ==> pos[j] < pos[k])
  }

  lemma SameExceptCommentTransitive(a: Line, b: Line, c: Line)
    requires SameExceptComment(a, b) && SameExceptComment(b, c)
    ensures SameExceptComment(a, c)
  {
  }

  /** A refreshed comment keeps the embedding. */
  lemma UpdateKeepsEmbedding(lines: seq<Line>, m: nat, l: Line, pos: seq<int>, target: seq<Line>)
    requires m < |lines| && SameExceptComment(l, lines[m])
    requires Embeds(pos, target, lines)
    ensures Embeds(pos, target, lines[m := l])
  {
    var r := lines[m := l];
    forall j | 0 <= j < |pos| ensures SameExceptComment(r[pos[j]], target[j]) {
      if pos[j] == m {
        SameExceptCommentTransitive(l, lines[m], target[j]);
      }
    }
  }

  /** An insertion at `p` shifts the positions at or after `p` by one. */
  lemma InsertKeepsEmbedding(lines: seq<Line>, p: nat, t: Line, pos: seq<int>, target: seq<Line>)
    returns (pos2: seq<int>)
    requires p <= |lines|
    requires Embeds(pos, target, lines)
    ensures Embeds(pos2, target, Insert(lines, p, t))
  {
    InsertSplices(lines, p, t);
    var r := lines[..p] + [t] + lines[p..];
    pos2 := seq(|pos|, j requires 0 <= j < |pos| => if pos[j] < p then pos[j] else pos[j] + 1);
    assert forall j :: 0 <= j < |pos| && pos[j] < p ==> pos2[j] == pos[j];
    assert forall j :: 0 <= j < |pos| && pos[j] >= p ==> pos2[j] == pos[j] + 1;
    forall j | 0 <= j < |pos2| ensures 0 <= pos2[j] < |r| && SameExceptComment(r[pos2[j]], target[j]) {
      if pos[j] < p {
        assert r[pos[j]] == lines[pos[j]];
      } else {
        assert r[pos[j] + 1] == lines[pos[j]];
      }
    }
  }

  lemma StepKeepsEmbedding(lines: seq<Line>, tmpl: seq<Line>, i: nat, pos: seq<int>,
                            target: seq<Line>, next: seq<Line>)
    returns (pos2: seq<int>)
    requires i < |tmpl| && next == Step(lines, tmpl, i)
    requires Embeds(pos, target, lines)
    ensures Embeds(pos2, target, next)
  {
    var t := tmpl[i];
    var m := IndexOfLine(lines, t);
    if m != -1 {
      pos2 := pos;
      if UpdatesComment(t, lines[m]) {
        UpdateKeepsEmbedding(lines, m, WithInlineComment(lines[m], t.InlineComment()), pos, target);
      }
    } else {
      var p := if i == 0 then 0 else IndexOfLine(lines, tmpl[i - 1]) + 1;
      pos2 := InsertKeepsEmbedding(lines, p, t, pos, target);
    }
  }

  lemma {:induction false} MergePrefixEmbedding(tmpl: seq<Line>, target: seq<Line>, n: nat) returns (pos: seq<int>)
    requires n <= |tmpl|
    ensures Embeds(pos, target, MergePrefix(tmpl, target, n))
  {
    if n == 0 {
      pos := IdentityEmbedding(target);
    } else {
      var prev := MergePrefixEmbedding(tmpl, target, n - 1);
      pos := NextTurnKeepsEmbedding(tmpl, target, n, prev);
    }
  }

  lemma NextTurnKeepsEmbedding(tmpl: seq<Line>, target: seq<Line>, n: nat, prev: seq<int>) returns (pos: seq<int>)
    requires 0 < n <= |tmpl|
    requires Embeds(prev, target, MergePrefix(tmpl, target, n - 1))
    ensures Embeds(pos, target, MergePrefix(tmpl, target, n))
  {
    MergePrefixTurn(tmpl, target, n);
    pos := StepKeepsEmbedding(MergePrefix(tmpl, target, n - 1), tmpl, n - 1, prev, target,
                              MergePrefix(tmpl, target, n));
  }

  lemma MergePrefixTurn(tmpl: seq<Line>, target: seq<Line>, n: nat)
    requires 0 < n <= |tmpl|
    ensures MergePrefix(tmpl, target, n) == Step(MergePrefix(tmpl, target, n - 1), tmpl, n - 1)
  {
  }

  lemma IdentityEmbedding(target: seq<Line>) returns (pos: seq<int>)
    ensures Embeds(pos, target, target)
  {
    pos := seq(|target|, j requires 0 <= j < |target| => j);
  }

  /** The target's lines survive the merge in their order, each with at most
      its inline comment changed. */
  lemma MergeKeepsTarget(tmpl: seq<Line>, target: seq<Line>)
    ensures exists pos :: Embeds(pos, target, Merged(tmpl, target))
  {
    var pos := MergePrefixEmbedding(tmpl, target, |tmpl|);
    assert Embeds(pos, target, Merged(tmpl, target));
  }

  /** Old config values survive: each target line keeps its key, value and
      section in the merge, and it renders as before unless it carries an
      inline comment (a refreshed comment is shown only where the target line
      already had one, since `HasInlineComment` is never updated). */
  lemma MergeKeepsValues(tmpl: seq<Line>, target: seq<Line>)
    ensures exists pos :: && Embeds(pos, target, Merged(tmpl, target))
                          && forall j :: 0 <= j < |target| ==> KeepsValue(Merged(tmpl, target)[pos[j]], target[j])
  {
    var pos := MergePrefixEmbedding(tmpl, target, |tmpl|);
    var merged := Merged(tmpl, target);
    forall j | 0 <= j < |target| ensures KeepsValue(merged[pos[j]], target[j]) {
      LineProperties.SameExceptCommentKeeps(merged[pos[j]], target[j]);
    }
  }

  /** `l` shows the key, value and section of `original`, and its text
      unless `original` carries an inline comment. */
  predicate KeepsValue(l: Line, original: Line) {
    && l.Key() == original.Key() && l.Value() == original.Value()
    && l.SectionName() == original.SectionName()
    && (!(original.Config? && original.hasInlineComment) ==> Render(l) == Render(original))
  }

  // ---------------------------------------------------------------------
  // How many lines the merge inserts
  // ---------------------------------------------------------------------

  lemma NextTurnLength(tmpl: seq<Line>, target: seq<Line>, n: nat)
    requires 0 < n <= |tmpl|
    ensures |MergePrefix(tmpl, target, n)| ==
              if IdentityOf(tmpl[n - 1]) in Identities(target) + Identities(tmpl[..n - 1])
              then |MergePrefix(tmpl, target, n - 1)|
              else |MergePrefix(tmpl, target, n - 1)| + 1
  {
    MergePrefixIdentities(tmpl, target, n - 1);
    StepIdentities(MergePrefix(tmpl, target, n - 1), tmpl, n - 1);
  }

  /** After `n` turns, one line has been inserted per identity among the
      first `n` template lines that the target lacks. */
  lemma {:induction false} MergePrefixLength(tmpl: seq<Line>, target: seq<Line>, n: nat)
    requires n <= |tmpl|
    ensures |MergePrefix(tmpl, target, n)| == |target| + |Identities(tmpl[..n]) - Identities(target)|
  {
    if n == 0 {
      assert tmpl[..0] == [];
    } else {
      MergePrefixLength(tmpl, target, n - 1);
      NextTurnLength(tmpl, target, n);
      IdentitiesOfLongerPrefix(tmpl, n);
      NewIdentityCount(|MergePrefix(tmpl, target, n - 1)|, |MergePrefix(tmpl, target, n)|, |target|,
                       Identities(target), Identities(tmpl[..n - 1]), Identities(tmpl[..n]),
                       IdentityOf(tmpl[n - 1]));
    }
  }

  lemma NewIdentityCount<T>(lenPrev: int, lenNext: int, base: int, known: set<T>,
                            shorter: set<T>, longer: set<T>, x: T)
    requires longer == shorter + {x}
    requires lenPrev == base + |shorter - known|
    requires lenNext == if x in known + shorter then lenPrev else lenPrev + 1
    ensures lenNext == base + |longer - known|
  {
    if x in known + shorter {
      assert longer - known == shorter - known;
    } else {
      assert longer - known == (shorter - known) + {x};
    }
  }

  /** The merge inserts exactly one line per template identity the target
      lacks: a template with several equal lines adds only one of them. */
  lemma MergeLength(tmpl: seq<Line>, target: seq<Line>)
    ensures |Merged(tmpl, target)| == |target| + |Identities(tmpl) - Identities(target)|
  {
    MergePrefixLength(tmpl, target, |tmpl|);
    assert tmpl[..|tmpl|] == tmpl;
  }

  lemma {:induction false} IdentitiesWithin(lines: seq<Line>, known: set<Identity>)
    requires forall k :: 0 <= k < |lines| ==> IdentityOf(lines[k]) in known
    ensures Identities(lines) <= known
  {
    if |lines| > 0 {
      assert forall k :: 0 <= k < |lines| - 1 ==> lines[1..][k] == lines[k + 1];
      IdentitiesWithin(lines[1..], known);
    }
  }

  /** An increasing placement of `n` lines among `n` lines leaves each where
      it was. */
  lemma FullEmbeddingIsIdentity(pos: seq<int>, n: nat)
    requires |pos| == n
    requires forall j :: 0 <= j < n ==> 0 <= pos[j] < n
    requires forall j, k :: 0 <= j < k < n ==> pos[j] < pos[k]
    ensures forall j :: 0 <= j < n ==> pos[j] == j
  {
    forall j | 0 <= j < n ensures pos[j] == j {
      AtLeastIndex(pos, n, j);
      AtMostIndex(pos, n, j);
    }
  }

  lemma {:induction false} AtLeastIndex(pos: seq<int>, n: nat, j: nat)
    requires |pos| == n && j < n
    requires forall j :: 0 <= j < n ==> 0 <= pos[j] < n
    requires forall j, k :: 0 <= j < k < n ==> pos[j] < pos[k]
    ensures pos[j] >= j
  {
    if j > 0 {
      AtLeastIndex(pos, n, j - 1);
    }
  }

  lemma {:induction false} AtMostIndex(pos: seq<int>, n: nat, j: nat)
    requires |pos| == n && j < n
    requires forall j :: 0 <= j < n ==> 0 <= pos[j] < n
    requires forall j, k :: 0 <= j < k < n ==> pos[j] < pos[k]
    ensures pos[j] <= j
    decreases n - j
  {
    if j < n - 1 {
      AtMostIndex(pos, n, j + 1);
    }
  }

  /** The merge adds no line exactly when every template line is already
      present, and then it changes nothing but inline comments. */
  lemma MergeOfCoveredTemplate(tmpl: seq<Line>, target: seq<Line>)
    ensures |Merged(tmpl, target)| == |target| <==> forall k :: 0 <= k < |tmpl| ==> Present(target, tmpl[k])
    ensures (forall k :: 0 <= k < |tmpl| ==> Present(target, tmpl[k])) ==>
              forall j :: 0 <= j < |target| ==> SameExceptComment(Merged(tmpl, target)[j], target[j])
  {
    MergeLength(tmpl, target);
    if forall k :: 0 <= k < |tmpl| ==> Present(target, tmpl[k]) {
      IdentitiesWithin(tmpl, Identities(target));
      assert Identities(tmpl) - Identities(target) == {};
      var pos := MergePrefixEmbedding(tmpl, target, |tmpl|);
      FullEmbeddingIsIdentity(pos, |target|);
    } else {
      var k :| 0 <= k < |tmpl| && !Present(target, tmpl[k]);
      IdentityOfElement(tmpl, k);
      assert IdentityOf(tmpl[k]) in Identities(tmpl) - Identities(target);
    }
  }

  /** Merging the same template a second time inserts nothing and changes
      nothing but inline comments. */
  lemma RemergeInsertsNothing(tmpl: seq<Line>, target: seq<Line>)
    ensures var once := Merged(tmpl, target);
            && |Merged(tmpl, once)| == |once|
            && forall j :: 0 <= j < |once| ==> SameExceptComment(Merged(tmpl, once)[j], once[j])
  {
    MergeHasTemplateLines(tmpl, target);
    MergeOfCoveredTemplate(tmpl, Merged(tmpl, target));
  }

  // ---------------------------------------------------------------------
  // The text-level merge
  // ---------------------------------------------------------------------

  /** `Merge` throws exactly when a line of either file cannot be parsed: the
      exception of the template's first such line, and otherwise that of the
      target's.  On success it returns one string per target line plus one
      per template identity the target lacks. */
  lemma MergeTextOutcome(newIni: seq<string>, oldIni: seq<string>)
    ensures MergeText(newIni, oldIni).Ok? <==>
              && (forall k :: 0 <= k < |newIni| ==> Parse(newIni[k], "").Ok?)
              && (forall k :: 0 <= k < |oldIni| ==> Parse(oldIni[k], "").Ok?)
    ensures Classify(newIni).Err? ==>
              exists k :: && 0 <= k < |newIni| && Parse(newIni[k], "") == Err(MergeText(newIni, oldIni).error)
                          && forall j :: 0 <= j < k ==> Parse(newIni[j], "").Ok?
    ensures Classify(newIni).Ok? && Classify(oldIni).Err? ==>
              exists k :: && 0 <= k < |oldIni| && Parse(oldIni[k], "") == Err(MergeText(newIni, oldIni).error)
                          && forall j :: 0 <= j < k ==> Parse(oldIni[j], "").Ok?
    ensures MergeText(newIni, oldIni).Ok? ==>
              |MergeText(newIni, oldIni).value|
                == |oldIni| + |Identities(Classify(newIni).value) - Identities(Classify(oldIni).value)|
  {
    ClassifySucceeds(newIni);
    ClassifySucceeds(oldIni);
    if Classify(newIni).Err? {
      ClassifyFails(newIni);
    } else if Classify(oldIni).Err? {
      ClassifyFails(oldIni);
    } else {
      MergeLength(Classify(newIni).value, Classify(oldIni).value);
    }
  }
}
