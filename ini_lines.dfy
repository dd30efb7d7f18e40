/**
 * One line of an INI file: the `INILine` class of INIUpdater.cs.
 *
 * The C# object carries four kind flags, `Key`, `Value`, `Section`,
 * `HasInlineComment` and `InlineComment`; exactly one flag is set by the
 * constructor, so the object is modelled as a datatype with one constructor
 * per kind.  The nullable string properties are recovered by the member
 * functions `Key()`, `Value()`, `SectionName()` and `InlineComment()`, which
 * return `None` where the C# property is `null`.
 */
module IniLines {

  import opened Wrappers
  import opened Text

  /** The exceptions the `INILine` constructor can throw. */
  datatype ParseError =
    | NotIniLine                 // InvalidOperationException("Not an ini configuration line")
    | InlineCommentWithoutSpace  // ArgumentOutOfRangeException from Substring(-1)

  datatype Line =
    | SectionHeader(text: string)
    | Comment(section: string, text: string)
    | Empty(section: string)
    | Config(section: string, key: string, value: string,
             hasInlineComment: bool, inlineComment: Option<string>)
  {
    /** The `Section` property: a header belongs to the section it opens. */
    function SectionName(): string {
      if SectionHeader? then text else section
    }

    /** The `Key` property, `null` except on a config line. */
    function Key(): Option<string> {
      if Config? then Some(key) else None
    }

    /** The `Value` property: the raw text of a header or comment, the value of
        a config line, `null` on an empty line. */
    function Value(): Option<string> {
      match this
      case SectionHeader(t) => Some(t)
      case Comment(_, t) => Some(t)
      case Empty(_) => None
      case Config(_, _, v, _, _) => Some(v)
    }

    /** The `InlineComment` property, `null` except where it was set on a
        config line. */
    function InlineComment(): Option<string> {
      if Config? then inlineComment else None
    }
  }

  /** First classification test: `[` ... `]`. */
  predicate IsHeaderText(raw: string) {
    StartsWith(raw, '[') && EndsWith(raw, ']')
  }

  /** Second classification test: a leading `#` or `;`. */
  predicate IsCommentText(raw: string) {
    StartsWith(raw, '#') || StartsWith(raw, ';')
  }

  /** The value part of a config line must be searched for an inline comment. */
  predicate MarksInlineComment(value: string) {
    '#' in value || ';' in value
  }

  /** What every line the constructor produces satisfies. */
  predicate WellFormed(l: Line) {
    match l
    case SectionHeader(t) => IsHeaderText(t)
    case Comment(_, t) => IsCommentText(t) && !IsHeaderText(t)
    case Empty(_) => true
    case Config(_, k, _, has, c) => '=' !in k && has == c.Some?
  }

  /**
   * The `INILine(line, section)` constructor.  Classification is first-match:
   * header, comment, blank, `key=value`; anything else is an error.  A config
   * line is split at its first `=`; when the value contains `#` or `;`, the
   * inline comment is the trimmed value from its first space onward, and the
   * value is cut at that same index.
   */
  function Parse(raw: string, section: string): (r: Result<Line, ParseError>)
    ensures r.Ok? ==> WellFormed(r.value)
    ensures r.Ok? ==> r.value.SectionName() == if r.value.SectionHeader? then raw else section
    ensures (r.Ok? && r.value.SectionHeader?) <==> IsHeaderText(raw)
    ensures (r.Ok? && r.value.Comment?) <==> !IsHeaderText(raw) && IsCommentText(raw)
    ensures (r.Ok? && r.value.Empty?) <==> !IsHeaderText(raw) && !IsCommentText(raw) && IsBlank(raw)
    ensures r == Err(NotIniLine) <==>
              !IsHeaderText(raw) && !IsCommentText(raw) && !IsBlank(raw) && '=' !in raw
    ensures r.Ok? && !r.value.Empty? && !r.value.Config? ==> r.value.Value() == Some(raw)
  {
    if IsHeaderText(raw) then
      Ok(SectionHeader(raw))
    else if IsCommentText(raw) then
      Ok(Comment(section, raw))
    else if IsBlank(raw) then
      Ok(Empty(section))
    else if '=' in raw then
      ParseConfig(raw, section)
    else
      Err(NotIniLine)
  }

  /** The value part of a config line: the text after its first `=`. */
  function RawValue(raw: string): string
    requires '=' in raw
  {
    raw[IndexOf(raw, '=') + 1..]
  }

  /** The config branch of the constructor: split at the first `=`, then look
      for an inline comment when the value holds `#` or `;`. */
  function ParseConfig(raw: string, section: string): (r: Result<Line, ParseError>)
    requires '=' in raw
    ensures r.Err? ==> r.error == InlineCommentWithoutSpace && MarksInlineComment(RawValue(raw))
    ensures r.Ok? ==> && r.value.Config? && r.value.section == section
                      && r.value.key == raw[..IndexOf(raw, '=')]
  {
    var key := raw[..IndexOf(raw, '=')];
    var value := RawValue(raw);
    if MarksInlineComment(value) then
      match SplitInlineComment(value)
      case None => Err(InlineCommentWithoutSpace)
      case Some(parts) => Ok(Config(section, key, parts.0, true, Some(parts.1)))
    else
      Ok(Config(section, key, value, false, None))
  }

  /** The inline-comment heuristic: the comment is the trimmed value from its
      first space onward, and the value is cut at that index.  `None` when the
      trimmed value has no space, where `Substring(-1)` throws. */
  function SplitInlineComment(value: string): (r: Option<(string, string)>)
    ensures r.None? <==> ' ' !in Trim(value)
    ensures r.Some? ==>
              var (cut, comment) := r.value;
              var t := Trim(value);
              && |cut| < |t| && t[|cut|] == ' ' && ' ' !in t[..|cut|]
              && cut == value[..|cut|]
              && comment == t[|cut|..]
              && StartsWith(comment, ' ') && !IsBlank(comment)
  {
    var trimmed := Trim(value);
    var index := IndexOf(trimmed, ' ');
    if index == -1 then None else Some((value[..index], trimmed[index..]))
  }

  /** `ToString()`.  A C# `null` inline comment concatenates as "". */
  function Render(l: Line): (r: string)
    ensures l.Empty? ==> r == ""
    ensures l.Config? ==> |l.key| < |r| && r[..|l.key|] == l.key && r[|l.key|] == '='
  {
    match l
    case SectionHeader(t) => t
    case Comment(_, t) => t
    case Empty(_) => ""
    case Config(_, k, v, has, c) =>
      if has then k + "=" + v + (if c.Some? then c.value else "") else k + "=" + v
  }

  /** The attributes `Equals` compares: a config line's value is left out. */
  datatype Identity = Identity(key: Option<string>, section: string, value: Option<string>)

  function IdentityOf(l: Line): Identity {
    Identity(l.Key(), l.SectionName(), if l.Config? then None else l.Value())
  }

  /**
   * `a.Equals(b)`: two config lines are equal when key and section agree;
   * otherwise key, section and value must all agree.  This is exactly
   * equality of the identities, hence an equivalence relation.
   */
  predicate Eq(a: Line, b: Line)
    ensures Eq(a, b) <==> IdentityOf(a) == IdentityOf(b)
  {
    if a.Config? && b.Config? then
      b.Key() == a.Key() && b.SectionName() == a.SectionName()
    else
      b.Key() == a.Key() && b.SectionName() == a.SectionName() && b.Value() == a.Value()
  }

  /** Assigning the `InlineComment` property; only config lines carry it. */
  function WithInlineComment(l: Line, c: Option<string>): (r: Line)
    ensures IdentityOf(r) == IdentityOf(l)
    ensures SameExceptComment(r, l)
    ensures l.Config? ==> r.InlineComment() == c
    ensures !l.Config? ==> r == l
  {
    if l.Config? then l.(inlineComment := c) else l
  }

  /** `a` is `b` with, at most, another inline comment. */
  predicate SameExceptComment(a: Line, b: Line) {
    if a.Config? then b.Config? && a.(inlineComment := b.inlineComment) == b else a == b
  }
}
