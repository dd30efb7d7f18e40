# INIUpdater in Dafny

INIUpdater merges a template INI file (`newINI`) into an existing one
(`oldINI`). Lines the existing file lacks are inserted. Values the existing
file already has are kept. A template line's non-blank inline comment is
stored on the matching existing line. The merge never sets
`HasInlineComment`, so the stored comment appears in the output only when the
existing line was read with an inline comment of its own.

This project models the core of `INIUpdater/INIUpdater.cs`:

- the `INILine` class: the constructor that classifies and splits a raw line,
  `ToString` and `Equals`;
- `INIUpdater.ToINILine`, which classifies a whole file while carrying the
  current section along;
- `INIUpdater.Merge`, the merge loop and the final rendering.

Modules:

- `Wrappers`: `Option` (a C# `null` string is `None`) and `Result` (a thrown
  exception is an `Err`).
- `Text`: the .NET string operations the code uses, on `seq<char>`.
  `IsWhite` is the exact character set of `Char.IsWhiteSpace`.
- `IniLines`: `INILine` as the datatype `Line`, with one constructor per kind
  flag. `Parse` is the constructor, `Render` is `ToString`, and `Eq` is
  `Equals`. `Identity` holds the attributes `Equals` compares, so `Eq` is
  equality of identities.
- `LineProperties`: lemmas about single lines.
- `IniUpdater`: specification functions and the imperative methods proved
  against them.
  - `ToIniLines` is the `ToINILine` loop, proved equal to `Classify`.
  - `Merge` calls `MergeLines` (the `for` loop over the template),
    `MergeTurn` (one loop body) and `RenderLines` (the `foreach`).
  - The merge is specified by the fold `MergePrefix` of `Step`, one turn per
    template line.
- `MergeProperties`: lemmas about the whole merge.

The inline-comment split follows the code as written. The cut index is
found in the *trimmed* value but applied to the *untrimmed* one. With white
space after `=`, the value therefore loses characters: `k = v ; c` gets the
value ` ` and the comment ` ; c`. See `LeadingSpaceSplit` and
`LeadingSpaceLosesValue`.

The `do … while (idx == -1)` loop that looks for the insertion anchor is
modelled as one lookup. `MergeTurn` requires the anchor (the previous template
line) to be present. `MergePrefixHasTemplateLines` proves that it always is,
so the source's loop body runs exactly once.

## Model

| member | source | states |
|---|---|---|
| Text.IndexOf | INIUpdater/INIUpdater.cs:120 | `IndexOf` returns the first position of the character, and -1 exactly when the character is absent |
| Text.Trim | INIUpdater/INIUpdater.cs:120-122 | `Trim()` is empty exactly for a blank string; otherwise it is the slice between the white margins, with a non-white first and last character |
| IniLines.Parse | INIUpdater/INIUpdater.cs:94-130 | classification is first-match: header, comment, blank, then `key=value`; both directions of each kind's condition; `NotIniLine` exactly for a non-blank, non-header, non-comment line without `=`; a header's section is its own text; every other line takes the given section; a parsed line is well formed |
| IniLines.SplitInlineComment | INIUpdater/INIUpdater.cs:118-124 | the split fails exactly when the trimmed value has no space; otherwise the comment is the trimmed value from its first space, starts with a space and is not blank, and the value is the untrimmed value cut at that index |
| IniLines.ParseConfig | INIUpdater/INIUpdater.cs:112-125 | the `key=value` branch gives a config line in the given section whose key is the text before the first `=`; it throws only the inline-comment exception, and only for a value holding `#` or `;` |
| IniLines.Render | INIUpdater/INIUpdater.cs:132-139 | an empty line renders as ""; a config line renders as its key followed by `=`; its partner `RenderParse` proves that parsed lines render back to their raw text |
| IniLines.Eq | INIUpdater/INIUpdater.cs:145-154 | `Equals` holds exactly when the identities (key, section, and value unless both lines are config lines) agree |
| IniLines.WithInlineComment | INIUpdater/INIUpdater.cs:33 | assigning `InlineComment` keeps the line's identity, sets the comment of a config line, and changes nothing else (the line is the same except for its comment) |
| LineProperties.ConfigSplitsAtFirstEquals | INIUpdater/INIUpdater.cs:112-117 | a config line is split at its first `=`: the key holds no `=`, the raw text is key + `=` + raw value, and without `#`/`;` the value is kept whole with no inline comment |
| LineProperties.InlineCommentOfConfig | INIUpdater/INIUpdater.cs:118-124 | a config line with an inline comment carries exactly the value and comment of the split heuristic |
| LineProperties.InlineCommentWithoutSpaceFails | INIUpdater/INIUpdater.cs:118-122 | the constructor throws from `Substring(-1)` exactly for a config line whose value has `#` or `;` and whose trimmed value has no space |
| LineProperties.ColourValueIsRejected | INIUpdater/INIUpdater.cs:118-122 | `c=#f` is rejected |
| LineProperties.RenderParse | INIUpdater/INIUpdater.cs:132-139 | rendering a parsed header, comment or config line without inline comment gives back the raw text, and an empty line renders as "" |
| LineProperties.ParseOfInlineComment | INIUpdater/INIUpdater.cs:112-124 | a config line whose value holds `#` or `;` is parsed into the key before the first `=` and the two halves of the comment split |
| LineProperties.FirstOccurrence | INIUpdater/INIUpdater.cs:114 | `IndexOf` finds a character at the first position it occurs |
| LineProperties.LeadingSpaceSplit | INIUpdater/INIUpdater.cs:120-123 | the value ` v ; c` is split into ` ` and ` ; c`: the index from the trimmed value is applied to the untrimmed one |
| LineProperties.LeadingSpaceLosesValue | INIUpdater/INIUpdater.cs:112-135 | the constructor turns `k = v ; c` into the config line with key `k `, value ` ` and comment ` ; c`, and that line renders as `k =  ; c`, without its value `v` |
| LineProperties.EqualityLaws | INIUpdater/INIUpdater.cs:145-154 | `Equals` is reflexive, symmetric and transitive; a config line never equals another kind; config lines are equal iff key and section match; empty lines iff their sections match; comments iff section and text match |
| LineProperties.EqualLinesHaveOneKind | INIUpdater/INIUpdater.cs:97-112 | equal lines from the constructor have the same kind |
| LineProperties.SameExceptCommentKeeps | INIUpdater/INIUpdater.cs:132-139 | a line that differs only in its inline comment has the same identity, key, value and section, and renders the same unless it carries an inline comment |
| IniUpdater.ParseFailureIgnoresSection | INIUpdater/INIUpdater.cs:94-129 | whether a raw line throws, and which exception, does not depend on the section passed in |
| IniUpdater.Classify | INIUpdater/INIUpdater.cs:62-76 | on success there is one line per raw line, and each is the constructor's result in the section in force before it |
| IniUpdater.ClassifySucceeds | INIUpdater/INIUpdater.cs:62-76 | classifying a file succeeds exactly when every raw line parses |
| IniUpdater.ClassifyStep | INIUpdater/INIUpdater.cs:66-74 | a file classifies exactly when all but its last raw line classify and the last one parses |
| IniUpdater.ClassifyFails | INIUpdater/INIUpdater.cs:62-76 | a failure carries the exception of the first raw line that does not parse |
| IniUpdater.ClassifyKeepsError | INIUpdater/INIUpdater.cs:66-74 | an exception on a prefix is the exception of the whole file |
| IniUpdater.CurrentSectionIsLastHeader | INIUpdater/INIUpdater.cs:65-72 | the section carried along is the text of the last header so far, or "" when there is none |
| IniUpdater.ClassifiedSections | INIUpdater/INIUpdater.cs:65-73 | each non-header line belongs to the section of the last header above it, or to "" above the first header |
| IniUpdater.ToIniLines | INIUpdater/INIUpdater.cs:62-76 | the loop with its `currentSection` variable computes `Classify` |
| IniUpdater.IndexOfLine | INIUpdater/INIUpdater.cs:27 | `List.IndexOf` returns the first position of an equal line, and -1 exactly when no line is equal |
| IniUpdater.UpdatesComment | INIUpdater/INIUpdater.cs:30-31 | a comment is refreshed only from a template config line that carries a comment |
| IniUpdater.Step | INIUpdater/INIUpdater.cs:27-52 | one turn keeps the length when an equal line is present and adds exactly one line otherwise; its partners `StepOnMatch`, `StepOnMiss` and `StepIdentities` give the full effect |
| IniUpdater.Insert | INIUpdater/INIUpdater.cs:50 | `List.Insert` makes the list one line longer |
| IniUpdater.InsertSplices | INIUpdater/INIUpdater.cs:50 | `Insert(p, t)` keeps the first `p` lines, puts `t` at `p` and shifts the rest by one |
| IniUpdater.IdentitiesAfterUpdate | INIUpdater/INIUpdater.cs:33 | refreshing a comment keeps the set of identities present |
| IniUpdater.IdentitiesAfterInsert | INIUpdater/INIUpdater.cs:40-50 | an insertion adds exactly the inserted line's identity |
| IniUpdater.StepIdentities | INIUpdater/INIUpdater.cs:27-52 | one turn adds the template line's identity and no other, and adds a line exactly when no equal line was present |
| IniUpdater.MergePrefixIdentities | INIUpdater/INIUpdater.cs:25-53 | after `n` turns, the lines present are those of the target and of the first `n` template lines |
| IniUpdater.MergePrefixHasTemplateLines | INIUpdater/INIUpdater.cs:44-51 | every template line handled so far is present, so the anchor lookup never fails |
| IniUpdater.RenderAll | INIUpdater/INIUpdater.cs:54-58 | one string per line, the `ToString()` of the line at the same position |
| IniUpdater.MergeText | INIUpdater/INIUpdater.cs:21-60 | `Merge` succeeds exactly when both files classify; its partner `MergeTextOutcome` gives the exception and the output length |
| IniUpdater.Merge | INIUpdater/INIUpdater.cs:21-60 | the method computes `MergeText`: both files classified (the template first), merged and rendered |
| IniUpdater.MergeLines | INIUpdater/INIUpdater.cs:25-53 | the loop over the template computes the fold of turns |
| IniUpdater.MergeTurn | INIUpdater/INIUpdater.cs:27-52 | the loop body computes one turn, given that the anchor is present |
| IniUpdater.RenderLines | INIUpdater/INIUpdater.cs:54-58 | the closing loop renders every merged line in order |
| MergeProperties.StepOnMatch | INIUpdater/INIUpdater.cs:27-35 | with an equal line present, only the first equal line changes, and only its inline comment; that comment becomes the template's unless the template's is null or blank |
| MergeProperties.StepOnMiss | INIUpdater/INIUpdater.cs:38-52 | an absent template line is inserted at 0 for the first template line, else right after the first line equal to the previous template line; the lines before and after are unchanged |
| MergeProperties.MergeHasTemplateLines | INIUpdater/INIUpdater.cs:25-53 | after the merge a line is present iff it was present in the target or the template; in particular every template line is present |
| MergeProperties.StepKeepsEmbedding | INIUpdater/INIUpdater.cs:27-52 | one turn keeps the target's lines in order, each changed at most in its inline comment |
| MergeProperties.MergePrefixEmbedding | INIUpdater/INIUpdater.cs:25-53 | after any number of turns the target's lines are still there, in order, changed at most in their inline comments |
| MergeProperties.MergeKeepsTarget | INIUpdater/INIUpdater.cs:25-53 | the merged list contains the target's lines in their original order, each changed at most in its inline comment |
| MergeProperties.MergeKeepsValues | INIUpdater/INIUpdater.cs:13 | old values are kept: every target line keeps its key, value and section, and its text unless it carried an inline comment |
| MergeProperties.MergePrefixLength | INIUpdater/INIUpdater.cs:25-53 | after `n` turns the list has grown by the number of identities among the first `n` template lines that the target lacks |
| MergeProperties.MergeLength | INIUpdater/INIUpdater.cs:25-53 | the merge inserts one line per template identity the target lacks: equal template lines are inserted once |
| MergeProperties.MergeOfCoveredTemplate | INIUpdater/INIUpdater.cs:25-53 | the merge adds no line iff every template line is already present, and then it changes only inline comments, line by line |
| MergeProperties.RemergeInsertsNothing | INIUpdater/INIUpdater.cs:25-53 | merging the same template into a merged list adds no line and changes only inline comments |
| MergeProperties.MergeTextOutcome | INIUpdater/INIUpdater.cs:21-24 | `Merge` fails iff a line of either file cannot be parsed; the template's first bad line decides the exception, then the target's; on success the output has one string per target line plus one per template identity the target lacks |

## Left out

- `INIUpdater/Program.cs` is not part of this model. It holds the command line, file reading and writing, console output and joining with `"\r\n"`.
- `INILine.GetHashCode` is not modelled. It depends on .NET string hashing, and `List.IndexOf` does not use it.
- The culture-sensitive `StartsWith(string)`/`EndsWith(string)` are modelled as comparisons of the first/last character. Strings are sequences of characters, with no UTF-16 surrogate handling.
- The C# objects are modelled as values, so aliasing is not modelled. It cannot change the result. An object inserted into `oldLines` is the template object `newLines[i]` of that turn. A later turn `k > i` can assign its `InlineComment`, and so change `newLines[i]`. But the comment of `newLines[i]` is read only during turn `i`, before any later assignment. Turn `i + 1` uses `newLines[i]` only as the anchor of `IndexOf`, and `Equals` ignores `InlineComment`. So every lookup and every comment read gives the same answer with or without sharing.
- The `do … while` anchor loop is replaced by one lookup whose success is proved. `Step` defines a turn with a missing anchor (insertion at 0) only to be total. The source would spin forever there, and the merge never reaches that case.
- RemergeInsertsNothing: does not prove that a second merge leaves the inline comments unchanged. It proves only that no line is added and that lines differ at most in their comments.
- Text-level idempotence (re-parsing the rendered output) is not modelled. The source promises none, and a re-parse can move lines into a newly inserted section.
