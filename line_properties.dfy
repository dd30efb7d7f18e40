/**
 * Properties of the line model: how a config line is split, what an inline
 * comment looks like, when rendering gives back the raw text, and what line
 * equality identifies.
 */
module LineProperties {

  import opened Wrappers
  import opened Text
  import opened IniLines

  /** A config line is split at its first `=` only: the key holds no `=`, any
      later `=` stays in the value, and without `#` or `;` in the value there is
      no inline comment and the value is kept whole. */
  lemma ConfigSplitsAtFirstEquals(raw: string, section: string)
    requires Parse(raw, section).Ok? && Parse(raw, section).value.Config?
    ensures '=' in raw
    ensures var l := Parse(raw, section).value;
            && raw == l.key + "=" + RawValue(raw)
            && '=' !in l.key
            && l.section == section
            && (l.hasInlineComment <==> MarksInlineComment(RawValue(raw)))
            && (!l.hasInlineComment ==> l.value == RawValue(raw) && l.inlineComment == None)
  {
    var eq := IndexOf(raw, '=');
    assert raw == raw[..eq] + "=" + raw[eq + 1..];
  }

  /** When the value holds `#` or `;`, the line carries the inline comment the
      heuristic finds, and the value is what is left of the UNTRIMMED value. */
  lemma InlineCommentOfConfig(raw: string, section: string)
    requires Parse(raw, section).Ok? && Parse(raw, section).value.Config?
    requires Parse(raw, section).value.hasInlineComment
    ensures '=' in raw
    ensures var l := Parse(raw, section).value;
            SplitInlineComment(RawValue(raw)) == Some((l.value, l.inlineComment.value))
  {
  }

  /** Substring(-1) throws exactly when a value holding `#` or `;` has no space
      once trimmed, e.g. `color=#fff`. */
  lemma InlineCommentWithoutSpaceFails(raw: string, section: string)
    ensures Parse(raw, section) == Err(InlineCommentWithoutSpace) <==>
              && !IsHeaderText(raw) && !IsCommentText(raw) && !IsBlank(raw) && '=' in raw
              && MarksInlineComment(RawValue(raw)) && ' ' !in Trim(RawValue(raw))
  {
  }

  lemma ColourValueIsRejected()
    ensures Parse("c=#f", "") == Err(InlineCommentWithoutSpace)
  {
    var raw := "c=#f";
    assert raw[1] == '=' && raw[0] != '=';
    assert IndexOf(raw, '=') == 1;
    var v := raw[2..];
    assert v == "#f" && v[0] == '#';
    assert Trim(v) == v by { TrimOfUnpadded(v); }
    assert ' ' !in v;
    InlineCommentWithoutSpaceFails(raw, "");
  }

  lemma TrimOfUnpadded(v: string)
    requires |v| > 0 && !IsWhite(v[0]) && !IsWhite(v[|v| - 1])
    ensures Trim(v) == v
  {
    assert LeadingWhite(v) == 0 && TrailingWhite(v) == 0;
  }

  /** Rendering a parsed line: headers, comments and config lines without an
      inline comment give back their raw text; an empty line renders as "". */
  lemma RenderParse(raw: string, section: string)
    requires Parse(raw, section).Ok?
    ensures var l := Parse(raw, section).value;
            && (l.Empty? ==> Render(l) == "")
            && (!l.Empty? && !(l.Config? && l.hasInlineComment) ==> Render(l) == raw)
  {
    if Parse(raw, section).value.Config? {
      ConfigSplitsAtFirstEquals(raw, section);
    }
  }

  /** `k = v ; c` is split into key `k `, value ` ` and comment ` ; c`
      (see `LeadingSpaceSplit`), and so renders as `k =  ; c`: the value `v`
      is lost. */
  lemma LeadingSpaceLosesValue()
    ensures Parse("k = v ; c", "") == Ok(Config("", "k ", " ", true, Some(" ; c")))
    ensures Render(Config("", "k ", " ", true, Some(" ; c"))) == "k =  ; c"
  {
    var raw := "k = v ; c";
    KeySpaceIsConfig(raw);
    KeySpaceSplit(raw);
    LeadingSpaceSplit();
    ParseOfInlineComment(raw, "", " ", " ; c");
    RenderOfLostValue();
  }

  lemma KeySpaceIsConfig(raw: string)
    requires raw == "k = v ; c"
    ensures !IsHeaderText(raw) && !IsCommentText(raw) && !IsBlank(raw)
  {
    assert raw[0] == 'k' && !IsWhite(raw[0]);
  }

  lemma KeySpaceSplit(raw: string)
    requires raw == "k = v ; c"
    ensures '=' in raw && IndexOf(raw, '=') == 2 && raw[..2] == "k "
    ensures RawValue(raw) == " v ; c" && MarksInlineComment(RawValue(raw))
  {
    KeySpaceEquals(raw);
    assert raw[3..] == " v ; c";
    assert raw[3..][3] == ';';
  }

  lemma KeySpaceEquals(raw: string)
    requires raw == "k = v ; c"
    ensures '=' in raw && IndexOf(raw, '=') == 2 && raw[..2] == "k "
  {
    assert raw[..2] == "k ";
    assert raw[2] == '=';
    FirstOccurrence(raw, '=', 2);
  }

  lemma FirstOccurrence(s: string, c: char, k: nat)
    requires k < |s| && s[k] == c && c !in s[..k]
    ensures IndexOf(s, c) == k
  {
    assert s[..k + 1][..k] == s[..k];
  }

  lemma RenderOfLostValue()
    ensures Render(Config("", "k ", " ", true, Some(" ; c"))) == "k =  ; c"
  {
    var text := "k " + "=" + " " + " ; c";
    assert Render(Config("", "k ", " ", true, Some(" ; c"))) == text;
    assert |text| == 8;
    assert forall i :: 0 <= i < 8 ==> text[i] == "k =  ; c"[i];
  }

  /** A config line whose value holds an inline comment is parsed into the
      key before the first `=` and the split of the value. */
  lemma ParseOfInlineComment(raw: string, section: string, cut: string, comment: string)
    requires !IsHeaderText(raw) && !IsCommentText(raw) && !IsBlank(raw) && '=' in raw
    requires MarksInlineComment(RawValue(raw))
    requires SplitInlineComment(RawValue(raw)) == Some((cut, comment))
    ensures Parse(raw, section) == Ok(Config(section, raw[..IndexOf(raw, '=')], cut, true, Some(comment)))
  {
  }

  /** The cut index is taken from the trimmed value but applied to the
      untrimmed one, so white space before the value shifts the cut: the value
      ` v ; c` keeps only ` ` before its comment, and `v` is dropped. */
  lemma LeadingSpaceSplit()
    ensures SplitInlineComment(" v ; c") == Some((" ", " ; c"))
  {
    var v := " v ; c";
    assert LeadingWhite(v) == 1 by {
      assert IsWhite(v[0]) && !IsWhite(v[1]);
    }
    assert TrailingWhite(v) == 0;
    var t := v[1..|v|];
    assert Trim(v) == t;
    assert t == "v ; c";
    assert IndexOf(t, ' ') == 1;
    assert v[..1] == " " && t[1..] == " ; c";
  }

  /** Equality is an equivalence relation; a config line never equals a line of
      another kind, any two empty lines of one section are equal, and an edited
      full-line comment equals no other comment, so a merge inserts it anew. */
  lemma EqualityLaws(a: Line, b: Line, c: Line)
    ensures Eq(a, a)
    ensures Eq(a, b) ==> Eq(b, a)
    ensures Eq(a, b) && Eq(b, c) ==> Eq(a, c)
    ensures a.Config? && !b.Config? ==> !Eq(a, b)
    ensures a.Config? && b.Config? ==> (Eq(a, b) <==> a.key == b.key && a.section == b.section)
    ensures a.Empty? && b.Empty? ==> (Eq(a, b) <==> a.section == b.section)
    ensures a.Comment? && b.Comment? ==> (Eq(a, b) <==> a.section == b.section && a.text == b.text)
  {
  }

  /** Lines produced by the constructor are equal only when they have the same
      kind: a header and a comment never share their text. */
  lemma EqualLinesHaveOneKind(a: Line, b: Line)
    requires WellFormed(a) && WellFormed(b) && Eq(a, b)
    ensures a.SectionHeader? == b.SectionHeader?
    ensures a.Comment? == b.Comment?
    ensures a.Empty? == b.Empty?
    ensures a.Config? == b.Config?
  {
  }

  /** A line that differs from another only in its inline comment has the
      same key, value, section and identity; it renders identically unless the
      line carries an inline comment. */
  lemma SameExceptCommentKeeps(a: Line, b: Line)
    requires SameExceptComment(a, b)
    ensures IdentityOf(a) == IdentityOf(b)
    ensures a.Key() == b.Key() && a.Value() == b.Value() && a.SectionName() == b.SectionName()
    ensures !(b.Config? && b.hasInlineComment) ==> Render(a) == Render(b)
  {
  }
}
