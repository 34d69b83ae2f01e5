# TransTips glossary popup: line rewrite and term selection

OmegaT's TransTips popup (`TransTipsPopup`) adds glossary items to the
editor's context menu. The user right-clicks a source word that matches a
glossary entry. The popup then offers each target term of that entry, with
"insert", "delete" and "edit" actions. Delete and edit patch the
tab-separated glossary file line by line (`editLine`).

This project models the logic inside that Swing glue:

- `glossary_file.dfy` (module `GlossaryFile`): the line-rewrite rule of
  `editLine`. The file is a sequence of lines. A line that starts with
  `search` is replaced by `replace`, or dropped when `replace` is empty.
  Every other line is copied. `Rewrite` is the specification and
  `EditLines` is the read/write loop, proved equal to it. Lemmas cover both
  modes, order preservation, the length bound and idempotence.
- `glossary_actions.dfy` (module `GlossaryActions`): how the two menu
  actions choose `search` and `replace`. Delete uses
  `srcText + '\t' + locTerm` with an empty replacement, after the user
  confirms. Edit builds its key the same way from the entry's source text
  and the target term at the chosen index (see "## Left out" for the
  accessor this takes on trust). It calls `editLine` only when the
  trimmed source and target fields of the dialog are non-blank, with
  replacement `src + '\t' + loc + '\t' + comment`. Java's `String.trim` is
  modelled exactly: it strips characters up to U+0020 at both ends.
- `term_selection.dfy` (module `TermSelection`): which target terms
  `addItems` puts in the menu. There are three guards: glossary marking is
  on; the mouse is in the active entry but not its translation; the mouse
  position lies in the source text, both ends included. A term is offered
  only if the mouse is on one of its entry's matched tokens, both ends
  included. The `added` set keeps each term string to one item, in
  first-seen order. `AddItems` is the nested loop; its innermost loop, over
  one entry's target terms, is the method `AddUnseen`. `Offered` is its
  specification: the deduplicated list of candidate terms met during the
  scan.

## Model

| member | source | states |
|---|---|---|
| `GlossaryFile.EditLines` | src/org/omegat/gui/glossary/TransTipsPopup.java:189-201 | the read/write loop writes exactly the rewrite of the input lines |
| `GlossaryFile.Rewrite` | src/org/omegat/gui/glossary/TransTipsPopup.java:190-201 | the output never has more lines than the input; with a non-empty replacement it has exactly as many |
| `GlossaryFile.Kept` | src/org/omegat/gui/glossary/TransTipsPopup.java:191-194 | the reference filter: its result is a subsequence of the input, holds only lines that do not start with the key, and holds every such line as often as the input does |
| `GlossaryFile.RewriteDeletes` | src/org/omegat/gui/glossary/TransTipsPopup.java:191-199 | with an empty replacement, the output is exactly the input without the lines that start with `search` |
| `GlossaryFile.RewriteReplaces` | src/org/omegat/gui/glossary/TransTipsPopup.java:191-199 | with a non-empty replacement, line i of the output is `replace` if input line i starts with `search`, else input line i; the lengths are equal |
| `GlossaryFile.UnmatchedKeptInOrder` | src/org/omegat/gui/glossary/TransTipsPopup.java:190-194 | for any replacement, the lines that do not start with `search` appear unchanged in the output, in their original relative order |
| `GlossaryFile.RewriteAppend` | src/org/omegat/gui/glossary/TransTipsPopup.java:190-201 | each line is rewritten on its own, so rewriting distributes over concatenating files |
| `GlossaryFile.RewriteIdempotent` | src/org/omegat/gui/glossary/TransTipsPopup.java:191-199 | rewriting the output again with the same `search` and `replace` gives the same output |
| `GlossaryFile.DeleteAlsoHitsLongerTerm` | src/org/omegat/gui/glossary/TransTipsPopup.java:131 | as written, deleting entry (src, loc) also deletes the line of entry (src, loc + more), whose target term is different |
| `GlossaryFile.EntryKeyExact` | src/org/omegat/gui/glossary/TransTipsPopup.java:191 | corrected match: for tab-free fields, key (src, loc) matches a line exactly when the line's first two fields are src and loc |
| `GlossaryFile.RewriteEntry` | src/org/omegat/gui/glossary/TransTipsPopup.java:189-201 | the rewrite with the corrected match never has more lines than the input; with a non-empty replacement it has exactly as many |
| `GlossaryFile.KeptEntries` | src/org/omegat/gui/glossary/TransTipsPopup.java:191-194 | the reference filter for the corrected match: a subsequence of the input, holding only lines that do not match the entry key, each such line as often as the input does |
| `GlossaryFile.RewriteEntryDeletes` | src/org/omegat/gui/glossary/TransTipsPopup.java:191-199 | corrected match, empty replacement: the output is exactly the input without the entry's lines |
| `GlossaryFile.RewriteEntryReplaces` | src/org/omegat/gui/glossary/TransTipsPopup.java:191-199 | corrected match, non-empty replacement: line i of the output is `replace` if input line i matches the entry key, else input line i; the lengths are equal |
| `GlossaryFile.DeleteEntryKeepsLongerTerm` | src/org/omegat/gui/glossary/TransTipsPopup.java:191 | with the corrected match, deleting (src, loc) keeps the line of (src, loc + more) |
| `GlossaryActions.TrimStart` | src/org/omegat/gui/glossary/TransTipsPopup.java:243-244 | the result is a suffix of the input; it does not start with a character up to U+0020; every dropped character is one |
| `GlossaryActions.TrimEnd` | src/org/omegat/gui/glossary/TransTipsPopup.java:243-244 | the result is a prefix of the input; it does not end with a character up to U+0020; every dropped character is one |
| `GlossaryActions.Trim` | src/org/omegat/gui/glossary/TransTipsPopup.java:243-244 | the result is a slice `s[i..j]` of the input with every character before `i` and from `j` on at most U+0020; if non-empty, neither end of it is such a character |
| `GlossaryActions.TrimEmptyIffBlank` | src/org/omegat/gui/glossary/TransTipsPopup.java:243-247 | a trimmed field is empty exactly when every character of it is at most U+0020 |
| `GlossaryActions.DeleteCall` | src/org/omegat/gui/glossary/TransTipsPopup.java:129-141 | delete calls `editLine` only after confirmation, with an empty replacement and the key `srcText + '\t' + locTerm` |
| `GlossaryActions.DeleteRemovesMatchingLines` | src/org/omegat/gui/glossary/TransTipsPopup.java:131-141 | a confirmed delete leaves exactly the lines that do not start with `srcText + '\t' + locTerm` |
| `GlossaryActions.EditDialogCall` | src/org/omegat/gui/glossary/TransTipsPopup.java:242-252 | edit calls `editLine` exactly when the dialog closed with OK and both trimmed fields are non-empty; the key is the entry's source text, a tab and its target term; the replacement is the trimmed source field, a tab, the trimmed target field, a tab and the comment |
| `GlossaryActions.EditNeverDeletes` | src/org/omegat/gui/glossary/TransTipsPopup.java:243-252 | the edit replacement is non-empty and starts with the trimmed non-blank fields; every matching line becomes that replacement in place and the file keeps its length |
| `TermSelection.Offered` | src/org/omegat/gui/glossary/TransTipsPopup.java:81-94 | no term is offered unless all three guards pass |
| `TermSelection.AddItems` | src/org/omegat/gui/glossary/TransTipsPopup.java:81-158 | the guards and the nested loops over entries, token groups, tokens and target terms build exactly `Offered` |
| `TermSelection.AddUnseen` | src/org/omegat/gui/glossary/TransTipsPopup.java:106-158 | adding one entry's target terms appends the terms not yet in `added`, keeps `added` equal to the menu's terms, and extends the deduplicated candidate list |
| `TermSelection.DedupMembers` | src/org/omegat/gui/glossary/TransTipsPopup.java:109-157 | deduplication keeps exactly the candidate terms: nothing is lost and nothing is invented |
| `TermSelection.DedupDistinct` | src/org/omegat/gui/glossary/TransTipsPopup.java:109-157 | the deduplicated list never holds the same string twice |
| `TermSelection.DedupPrefix` | src/org/omegat/gui/glossary/TransTipsPopup.java:96-158 | first-seen order: the list built from any prefix of the candidates is a prefix of the final list |
| `TermSelection.TokenTermsMembers` | src/org/omegat/gui/glossary/TransTipsPopup.java:100-108 | a term is a candidate from a token group iff it is a target term of the entry and some token of the group is under the mouse |
| `TermSelection.GroupTermsMembers` | src/org/omegat/gui/glossary/TransTipsPopup.java:98-108 | a term is a candidate from an entry iff it is a target term of the entry and some token of some group is under the mouse |
| `TermSelection.EntryTermsMembers` | src/org/omegat/gui/glossary/TransTipsPopup.java:97-108 | a term is a candidate iff some entry has it as a target term and has a token under the mouse |
| `TermSelection.OfferedExactly` | src/org/omegat/gui/glossary/TransTipsPopup.java:81-109 | a term is offered iff the guards pass and some entry with a token under the mouse (`startSource+off <= mousepos <= startSource+off+len`) has it as a target term |
| `TermSelection.OfferedDistinct` | src/org/omegat/gui/glossary/TransTipsPopup.java:96-158 | no term string is offered twice |

## Left out

- File-system work in `editLine` is not modelled: the temp file, encoding detection, reader and writer streams, the `old` folder and the two moves. The model maps the file's lines to the lines written. An `IOException` that is only logged is not modelled either.
- Line terminators (`readLine` / `newLine`) are not modelled; the file is a sequence of lines.
- `GlossaryActions.EditNeverDeletes` and `GlossaryFile.RewriteIdempotent`: the model assumes that no line and no replacement holds a line terminator. `String.trim` (lines 243-246) only strips the ends, so a line break inside the source, target or comment field survives it, and `writer.write(replace)` (line 197) would then write several lines. On the real file the length and idempotence claims then fail. What the dialog fields can contain is decided by code that is not part of this model.
- The Swing side is not modelled: building `JMenu`/`JMenuItem`, comment sub-items, mnemonics and the insert action (`insertText`). The delete confirmation dialog is modelled as a boolean. The edit dialog is modelled as its OK status and field texts. The `singleDialog` focus guard and geometry persistence are left out.
- The separator that `addItems` appends after the terms whenever the guards pass is not modelled. The result is the list of term strings only.
- These results of calls whose code is not part of this model are inputs: the glossary manager's token search (`Entry.tokenGroups`), `getLocTerms` (`Entry.locTerms`), `getSrcText` (`srcText`), `getOriginIndex` (the file the lines come from), `StringUtil.normalizeUnicode` (fields are given already normalised) and `HttpConnectionUtils.encodeHttpURLs` (the comment is given already encoded).
- The edit action's key uses `glossEntry.getLocIndex(entryIndex)`, while the offered term and the delete key use `getLocTerms(true)[i]` with the same index. The code of these accessors is not part of this model. `GlossaryActions.EditDialogCall` takes the term as its `locTerm` parameter, which assumes `getLocIndex(i)` is the offered term. `getCommentIndex` (the comment shown in the menu and the dialog's initial comment) is likewise not modelled.
- Java's 32-bit `int` overflow in `startSource + offset + length` is not modelled; positions are unbounded integers.
- `GlossaryActions.Trim` works on Dafny characters, not UTF-16 code units. For characters up to U+0020, which are all trim ever strips, the two agree.

## Findings

| source | as written | input that shows it | evidently intended | confidence | as-written member | corrected member |
|---|---|---|---|---|---|---|
| src/org/omegat/gui/glossary/TransTipsPopup.java:131 | the key `srcText + '\t' + locTerm` is matched with `startsWith`, a plain prefix test. It also matches any line whose target term only begins with `locTerm` | glossary lines `cat<TAB>chat` and `cat<TAB>chaton`: deleting the term `chat` removes both lines. Editing `chat` overwrites both lines with the new entry | only the line whose source and target fields are exactly `srcText` and `locTerm` is deleted or replaced | medium, not executed | `GlossaryFile.DeleteAlsoHitsLongerTerm` | `GlossaryFile.EntryKeyExact` |

The corrected rule (`GlossaryFile.StartsWithEntry`, used by
`GlossaryFile.RewriteEntry`, whose two modes `GlossaryFile.RewriteEntryDeletes` and
`GlossaryFile.RewriteEntryReplaces` state) requires the key to be followed by the end of the line
or by a tab. The actions and `EditLines` still model the rule as written,
because they describe the code.
