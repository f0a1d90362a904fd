# Verification of the query analyser's libraries

A Dafny model of four parts of the repository, with proofs about all their inputs.

**The DFA matcher of PCRE** (`pcre_dfa_exec.c`, modules `Pcre*`). `PcreCode` decodes compiled code and says which
matcher state may follow which. `PcrePattern` has patterns as trees, their code, and what a run is to match, by
recursion on the tree; `PcreMeaning` has what a tree means without any options, and when that is the same;
`PcreLanguage` says that once more without recursion, with the bits of tables and the bytes of the code as numbers.
`PcreLayout`, `PcreCorrect` and `PcreValid` show that the two agree and that compiled code is safe to run. `PcreScan`
is about one pass over the active states. `PcreVectors`, `PcreStep`, `PcreDfa` and `PcreExec` are the code: two state
vectors swapped inside the caller's int array, the switch over opcodes, the vector of matches, nested runs for
subpattern calls, and the loops. `PcreRoom` says how much workspace is enough and what a run fails of. `PcreSearch` is the search along the
subject with its optimisations, and `PcreTheorems` puts everything together, with two counterexamples in
`PcreExamples`.

**cJSON** (`cJSON.c`, modules `Json*`). `JsonText` has values, their texts and how texts are read; `JsonEscapes` is
about the two passes over a string; `JsonRoundTrip`, `JsonMeaning` and parts of `JsonMinify` and `JsonStrings` are
about these. `JsonGrammar` has the grammar of RFC 8259 and shows that its texts are read as what they mean,
`JsonAccepted` that nothing much else is accepted, `JsonErrors` where other texts are refused; `JsonLayout` has the
bytes of printed texts, and `JsonComments` what Minify leaves of any text. The code is in `JsonStrings` (strings and their buffers), `JsonMinify` (in place), `JsonPrint` (sizes and
buffers, allocation that may fail), `JsonNodes`, `JsonParse` and `JsonEdit` (nodes in memory, allocation that may
fail, lists edited in place); `JsonRuns` is about any number of edits in a row.

**Traditional and simplified Chinese** (`ts_chinese_translate.c`, modules `Ts*`): cutting a text into characters, the
chained hash tables, and translation; `TsCodePoints` says what happens to each code point.

**Helpers of PCRE**: the table of group names (`pcre_get.c`, module `NameTable`) and UTF-16 (`Utf16`).

Code that works step by step is written as methods over arrays and objects, each proved against a function or
relation; the properties are then proved of those.

Where the code and its description differ, the model follows the code:

- `get_first_set` promises the number of the last entry if no group is set, but reads behind it (`NameTable.PromiseIsKept`).
- A high surrogate escape uses up a following escape that is no low surrogate (`JsonStrings.TranscodeIsMeaning`).
- `PCRE_NOTEMPTY` also drops empty matches of called subpatterns, since nested runs see the same options
  (`PcreExamples.DroppedCallExample`; when it makes no difference, `PcreMeaning.ReportedIsMeant`).
- Restarting loses matches of called subpatterns that span the join (`PcreExamples.CallAcrossJoinExample`).
- A formatted empty object has one tab less before its closing brace than other objects (`JsonPrint.PrintEmptyObject`).
- The parser takes all control characters for blanks, and accepts numbers without digits or with a zero in front, and
  any four bytes behind `\u` (`JsonAccepted.ValueWas`).
- A comment `/*/` is complete for Minify (`JsonComments.BlockIsDropped`).
- An unterminated JSON string is accepted by the parser, which stops at the end of the text
  (`JsonEscapes.UnterminatedIsRead`).
- The two passes of `parse_string` disagree about a quote or backslash among the four bytes behind `\u`, and the second
  may write behind the end of the buffer (`JsonEscapes.OverrunExample`; `JsonEscapes.SoundIsInStep` says when they agree).
- Minify ends such strings where the first pass does and may change their value (`JsonMeaning.MinifyChangesExample`).
- The code points of four-byte characters are computed with the multiplier 32768, as in the code.
- Translating and back needs less than that no value occurs in the text: a value that is a key as well does no harm
  (`TsTranslate.TraditionalAndBack`).

Nothing here runs the original program.

## Model

| member | source | states |
|---|---|---|
| PcreTheorems.SearchIsExact | QueryAnalyseNginx/pcre-8.35/pcre_dfa_exec.c:3430-3668 | For every pattern tree, subject and start offset: the match ends a search reports are all those at which the tree matches from the reported start (the options counting for the groups it calls), longest first and cut only by the size of the vector; the result is their number, or 0 if the vector is too small; no earlier start point that the options allow matches |
| PcreTheorems.NoMatchIsExact | QueryAnalyseNginx/pcre-8.35/pcre_dfa_exec.c:3430-3670 | If the search reports no match, the tree matches at no start point that the options allow |
| PcreTheorems.SearchIsMeant | QueryAnalyseNginx/pcre-8.35/pcre_dfa_exec.c:785-788 | If the options drop nothing that the pattern calls, the reported matches are exactly those of the tree without any options, but for empty ones where the options forbid them |
| PcreTheorems.NoMatchIsMeant | QueryAnalyseNginx/pcre-8.35/pcre_dfa_exec.c:785-788 | Likewise, if no match is reported the tree has none that may be reported |
| PcreMeaning.ReportedIsMeant | QueryAnalyseNginx/pcre-8.35/pcre_dfa_exec.c:785-788 | What is reported is always a match of the tree without options; the converse holds if no called group matches the empty string where the options forbid it |
| PcreMeaning.CallsMeanIff | QueryAnalyseNginx/pcre-8.35/pcre_dfa_exec.c:2789-2866 | All calls in the pattern match what their groups match exactly if no called group matches the empty string where the options forbid it |
| PcreMeaning.DropsNothingIf | QueryAnalyseNginx/pcre-8.35/pcre_dfa_exec.c:785-788 | That is so without the options, without calls, and if no called group matches an empty string anywhere |
| PcreExamples.DroppedCallExample | QueryAnalyseNginx/pcre-8.35/pcre_dfa_exec.c:785-788 | A pattern that matches a subject and is reported as no match, because the empty match of a group it calls is dropped |
| PcreExamples.CallAcrossJoinExample | QueryAnalyseNginx/pcre-8.35/pcre_dfa_exec.c:2841-2866 | A pattern with a call that matches a text, and is not found when the text is searched in two pieces |
| PcreTheorems.OptimisedIsPlain | QueryAnalyseNginx/pcre-8.35/pcre_dfa_exec.c:3430-3608 | Searches with different hints, or with the start-of-match optimisations off, have the same result, start, ends and vector, as long as they allow the same start points |
| PcreTheorems.OptimisedKeepsPartials | QueryAnalyseNginx/pcre-8.35/pcre_dfa_exec.c:3430-3608 | The same with partial matching: the same searches end in a partial match, from the same start, if the hints are true of whatever gets past a character |
| PcreTheorems.RestartIsOneRun | QueryAnalyseNginx/pcre-8.35/pcre_dfa_exec.c:543-548 | For a pattern that calls no group: after any number of partial matches, each resuming the one before, the run on the last piece reports exactly the matches of the tree on the whole text that end in that piece |
| PcreTheorems.PartialThenRestart | QueryAnalyseNginx/pcre-8.35/pcre_dfa_exec.c:3106-3133 | One join, for a pattern that calls no group and in terms of the search: a restart with the workspace a partial match has left reports exactly the matches in both pieces together that end in the second one |
| PcreTheorems.RelayIsWhole | QueryAnalyseNginx/pcre-8.35/pcre_dfa_exec.c:589-596 | If runs from the first states meet no call, what the resumed states reach in the last piece is what the first states reach in the whole text, for any goal |
| PcreTheorems.FrontIsTree | QueryAnalyseNginx/pcre-8.35/pcre_dfa_exec.c:553-566 | From the branch starts that a run begins with, the closing opcode is reached exactly where the tree matches, options counting for the groups it calls |
| PcreTheorems.FrontIsMeant | QueryAnalyseNginx/pcre-8.35/pcre_dfa_exec.c:553-566 | Exactly where the tree matches without any options, if they drop nothing of what the pattern calls |
| PcreTheorems.PartialIsMeant | QueryAnalyseNginx/pcre-8.35/pcre_dfa_exec.c:3106-3133 | When the result is partial, in terms of the tree: with the soft option only if nothing matches from the start, with the hard one even if something does; always only if the pattern gets past a character and wants one behind the end; an earlier start where it does would have been reported; the vector gets the start, the end of the subject and the start again |
| PcreTheorems.PartialAtMeans | QueryAnalyseNginx/pcre-8.35/pcre_dfa_exec.c:3106-3124 | From one start: exactly if an option asks for it, the soft one only if nothing matches, and some state reached at the end of the subject is at an opcode that looks at a character |
| PcreTheorems.HintsMean | QueryAnalyseNginx/pcre-8.35/pcre_dfa_exec.c:3367-3608 | What the hints have to promise, in terms of the tree and the tables: every match begins with the first character or one in the bitmap, at the start of a line or where the place before matches too, is long enough and has the required character in it or behind it |
| PcreTheorems.CandidateMeans | QueryAnalyseNginx/pcre-8.35/pcre_dfa_exec.c:3430-3670 | The start points: those up to the end of the subject, the start offset only if anchored or restarting, and none behind a newline if the match has to begin in the first line |
| PcreTheorems.ErrorNumbers | QueryAnalyseNginx/pcre-8.35/pcre.h.in:175-209 | The results that are no counts of matches |
| PcreTheorems.FailureIsExact | QueryAnalyseNginx/pcre-8.35/pcre_dfa_exec.c:2805-2866 | Lack of room aside, a run fails exactly if it comes to a call that is at fault: one whose group is being called from the same position already, one with more than 500 matches, or one whose nested run comes to such a call |
| PcreTheorems.LoopCallsAtOnce | QueryAnalyseNginx/pcre-8.35/pcre_dfa_exec.c:2805-2807 | A run fails of looping calls only if some bracket makes a call before it has got past a character |
| PcreTheorems.ShortNeverCrowds | QueryAnalyseNginx/pcre-8.35/pcre_dfa_exec.c:2835-2837 | No nested run has too many matches if the subject has less than 500 characters |
| PcreTheorems.SearchFits | QueryAnalyseNginx/pcre-8.35/pcre_dfa_exec.c:352-393 | A search for a pattern that calls no group has nothing to fail of if the workspace is larger than a bound in the lengths of code and subject |
| PcreTheorems.BranchesQuiet | QueryAnalyseNginx/pcre-8.35/pcre_dfa_exec.c:553-566 | Runs of a pattern that calls no group meet no call |
| PcreCorrect.PatternIsCode | QueryAnalyseNginx/pcre-8.35/pcre_internal.h:1875-2126 | The compiled bracket, run on its own, matches exactly what the tree matches; the tree relation is defined without the code, with the options only where a group is called |
| PcreCorrect.ItemSound | QueryAnalyseNginx/pcre-8.35/pcre_dfa_exec.c:771-860 | From the code of an item the states can only go on behind the item where the item matches |
| PcreCorrect.ItemComplete | QueryAnalyseNginx/pcre-8.35/pcre_dfa_exec.c:771-860 | Wherever an item matches, the states go on behind it, however often an empty loop body re-enters its bracket |
| PcreCorrect.RepeatSound | QueryAnalyseNginx/pcre-8.35/pcre_dfa_exec.c:2307-2527 | A repeat state can only be left after a number of characters its bounds allow, all of which pass; a possessive one only when it can take no more |
| PcreCorrect.RepeatComplete | QueryAnalyseNginx/pcre-8.35/pcre_dfa_exec.c:2307-2527 | Every number of characters the bounds allow is reached |
| PcreCorrect.GroupSound | QueryAnalyseNginx/pcre-8.35/pcre_dfa_exec.c:847-860 | The same for brackets with KET, KETRMAX, KETRMIN, BRAZERO, BRAMINZERO and SKIPZERO: an item that may be skipped, and loops of one or more matches |
| PcreCorrect.GroupComplete | QueryAnalyseNginx/pcre-8.35/pcre_dfa_exec.c:847-860 | The converse of GroupSound |
| PcreCorrect.CallSound | QueryAnalyseNginx/pcre-8.35/pcre_dfa_exec.c:2789-2866 | A called group, run on its own, ends only where the alternatives of that group match |
| PcreCorrect.CallComplete | QueryAnalyseNginx/pcre-8.35/pcre_dfa_exec.c:2789-2866 | The converse of CallSound |
| PcreLayout.BracketLayout | QueryAnalyseNginx/pcre-8.35/pcre_internal.h:2187-2264 | Following the links of a compiled bracket leads over all its branches to its closing opcode, whose link leads back to the opener |
| PcreLayout.RepeatDecode | QueryAnalyseNginx/pcre-8.35/pcre_internal.h:1923-2034 | All 13 repeats of each single-character family, and the class repeats, decode to the quantifier they were compiled from |
| PcrePattern.Bytes2RoundTrip | QueryAnalyseNginx/pcre-8.35/pcre_internal.h:429-434 | GET reads what PUT writes, for every two-byte value |
| PcreLanguage.ClassMeans | QueryAnalyseNginx/pcre-8.35/pcre_dfa_exec.c:2550-2551 | A class passes character c exactly if bit c % 8 of byte c / 8 is set, counted from the lowest |
| PcreLanguage.ClassOfMeans | QueryAnalyseNginx/pcre-8.35/pcre_compile.c:71 | The bitmap built for any set of characters is passed by exactly that set |
| PcreLanguage.TypeMeans | QueryAnalyseNginx/pcre-8.35/pcre_internal.h:2569-2573 | Which bit of the character types each of the eight type opcodes looks at, and with which sign; a dot passes all but the newline |
| PcreLanguage.LetterMeans | QueryAnalyseNginx/pcre-8.35/pcre_dfa_exec.c:2117-2301 | CHAR, CHARI, NOT and NOTI by equality with the character or its other case |
| PcreLanguage.SingleMeans | QueryAnalyseNginx/pcre-8.35/pcre_dfa_exec.c:2117-2301 | One character, if it passes |
| PcreLanguage.RepeatMeans | QueryAnalyseNginx/pcre-8.35/pcre_dfa_exec.c:2307-2527 | A repeat matches a stretch of passing characters of a length its quantifier allows; a possessive one the longest of those |
| PcreLanguage.BranchMeans | QueryAnalyseNginx/pcre-8.35/pcre_dfa_exec.c:771-860 | A branch matches exactly if the stretch can be cut into pieces that its items match in turn |
| PcreLanguage.AltsMeans | QueryAnalyseNginx/pcre-8.35/pcre_dfa_exec.c:824-844 | Alternatives match exactly what one of the branches matches |
| PcreLanguage.GroupMeans | QueryAnalyseNginx/pcre-8.35/pcre_dfa_exec.c:771-860 | A group matches exactly as many pieces in a row as its closing opcode and what stands before it allow |
| PcreLanguage.RecurseMeans | QueryAnalyseNginx/pcre-8.35/pcre_dfa_exec.c:2789-2866 | A call matches what the alternatives of the whole pattern, or of a capturing group with its number, match |
| PcreLanguage.OpcodeNumbers | QueryAnalyseNginx/pcre-8.35/pcre_internal.h:1878-2126 | The numbers of the opcodes |
| PcreLanguage.SingleNumbers | QueryAnalyseNginx/pcre-8.35/pcre_internal.h:1904-1922 | The bytes of one character, type or class |
| PcreLanguage.RepeatNumbers | QueryAnalyseNginx/pcre-8.35/pcre_internal.h:1923-2014 | The bytes of every repeat without a limit, by its distance from the first of its family |
| PcreLanguage.LimitNumbers | QueryAnalyseNginx/pcre-8.35/pcre_internal.h:1923-2014 | Those of every repeat with a limit in two bytes, the high one first |
| PcreLanguage.ClassNumbers | QueryAnalyseNginx/pcre-8.35/pcre_internal.h:2016-2034 | Those of every class repeat |
| PcreLanguage.RangeNumbers | QueryAnalyseNginx/pcre-8.35/pcre_internal.h:2016-2034 | Those of class repeats with limits |
| PcreLanguage.BracketNumbers | QueryAnalyseNginx/pcre-8.35/pcre_internal.h:2187-2264 | Those of a bracket: the length to its end, the branch, the length back |
| PcreLanguage.CaptureNumbers | QueryAnalyseNginx/pcre-8.35/pcre_internal.h:2187-2264 | A capturing one has its number in two bytes before the branch |
| PcreLanguage.BranchNumbers | QueryAnalyseNginx/pcre-8.35/pcre_internal.h:2187-2264 | Further branches begin with ALT and the length to the next |
| PcreLanguage.ItemNumbers | QueryAnalyseNginx/pcre-8.35/pcre_internal.h:2187-2264 | BRAZERO, BRAMINZERO and SKIPZERO before a bracket, and RECURSE with the offset of its group |
| PcreLanguage.PatternNumbers | QueryAnalyseNginx/pcre-8.35/pcre_internal.h:2187-2264 | A whole pattern is a bracket without a number, and END |
| PcreLanguage.TwoBytes | QueryAnalyseNginx/pcre-8.35/pcre_internal.h:429-434 | Two bytes are a number with the high one first, and that number is written as these |
| PcreValid.CompiledIsValid | QueryAnalyseNginx/pcre-8.35/pcre_dfa_exec.c:555-565 | Compiled code is valid: no opcode outside the model, nothing read outside the code, links that end, and a run never leaves its bracket |
| PcreValid.CompiledIsCallFree | QueryAnalyseNginx/pcre-8.35/pcre_dfa_exec.c:2789-2793 | If the tree calls no group, no instruction that a run of the compiled code can come to is a call, whatever bytes the code holds |
| PcreCode.CallIsRun | QueryAnalyseNginx/pcre-8.35/pcre_dfa_exec.c:2817-2866 | A bracket run once from i finds what a call of it at i matches, whatever the nesting depth of further calls |
| PcreScan.ScanSplits | QueryAnalyseNginx/pcre-8.35/pcre_dfa_exec.c:575-680 | One pass over the active states neither loses nor adds anything: what the states at p reach is reached here or by the states for p + 1 |
| PcreScan.ScanComplete | QueryAnalyseNginx/pcre-8.35/pcre_dfa_exec.c:638-687 | Nothing is lost although duplicates are dropped |
| PcreScan.PassDuplicate | QueryAnalyseNginx/pcre-8.35/pcre_dfa_exec.c:679-687 | Dropping a state equal to an earlier active one keeps the pass complete |
| PcreScan.PassStep | QueryAnalyseNginx/pcre-8.35/pcre_dfa_exec.c:638-691 | Acting on one more state keeps the pass complete and sound if exactly its successors are added |
| PcreScan.PassWaiting | QueryAnalyseNginx/pcre-8.35/pcre_dfa_exec.c:659-668 | Putting off a waiting state by one character keeps the pass complete and sound |
| PcreScan.CarriesOn | QueryAnalyseNginx/pcre-8.35/pcre_dfa_exec.c:589-596 | After each pass the new states stand for the first ones; if runs from those meet no call, also for every longer subject |
| PcreScan.ScanWithin | QueryAnalyseNginx/pcre-8.35/pcre_dfa_exec.c:638-687 | A pass whose first states can meet no call acts on none |
| PcreVectors.StateVectors.constructor | QueryAnalyseNginx/pcre-8.35/pcre_dfa_exec.c:438-454 | The two vectors are disjoint and inside the workspace behind words 0 and 1; word 1 and all else is untouched |
| PcreVectors.StateVectors.Resume | QueryAnalyseNginx/pcre-8.35/pcre_dfa_exec.c:543-549 | The states saved in either half of the workspace become the new states |
| PcreVectors.StateVectors.AddActive | QueryAnalyseNginx/pcre-8.35/pcre_dfa_exec.c:352-360 | Appends to the active vector and changes nothing else, exactly if the vector has room; otherwise the size error |
| PcreVectors.StateVectors.AddNew | QueryAnalyseNginx/pcre-8.35/pcre_dfa_exec.c:373-381 | The same for the new vector |
| PcreVectors.StateVectors.AddWaiting | QueryAnalyseNginx/pcre-8.35/pcre_dfa_exec.c:383-393 | The same for an entry with a negated offset and a number of characters to wait |
| PcreVectors.StateVectors.Swap | QueryAnalyseNginx/pcre-8.35/pcre_dfa_exec.c:589-596 | The new states become the active ones, the other vector is emptied, words 0 and 1 say so |
| PcreVectors.StateVectors.IsDuplicate | QueryAnalyseNginx/pcre-8.35/pcre_dfa_exec.c:679-687 | True exactly if an earlier active state has the same offset and count |
| PcreVectors.StateVectors.Settle | QueryAnalyseNginx/pcre-8.35/pcre_dfa_exec.c:654-673 | A waiting entry that has waited long enough gets its offset back; as a sequence of states nothing changes |
| PcreVectors.TakeUp | QueryAnalyseNginx/pcre-8.35/pcre_dfa_exec.c:546-549 | The copy of the saved states reads back as what was saved |
| PcreVectors.CopyWords | QueryAnalyseNginx/pcre-8.35/pcre_dfa_exec.c:547-548 | memcpy, word by word |
| PcreStep.StepState | QueryAnalyseNginx/pcre-8.35/pcre_dfa_exec.c:702-2645 | The switch: for every opcode of the model but calls and the run's own end, exactly the states that may follow are added, or the size error is returned because a vector is full |
| PcreStep.StepIsEdges | QueryAnalyseNginx/pcre-8.35/pcre_dfa_exec.c:702-2645 | What is added is what the step relation allows, both directions |
| PcreStep.StepEnd | QueryAnalyseNginx/pcre-8.35/pcre_dfa_exec.c:771-821 | KET, KETRMAX, KETRMIN and ALT |
| PcreStep.StepZero | QueryAnalyseNginx/pcre-8.35/pcre_dfa_exec.c:847-860 | BRAZERO, BRAMINZERO and SKIPZERO |
| PcreStep.StepBracket | QueryAnalyseNginx/pcre-8.35/pcre_dfa_exec.c:824-844 | BRA, SBRA, CBRA and SCBRA: every branch, with the longer header of a capturing bracket only for the first |
| PcreStep.StepChar | QueryAnalyseNginx/pcre-8.35/pcre_dfa_exec.c:2117-2301 | One character: types, ANY, ALLANY, CHAR, CHARI, NOT, NOTI |
| PcreStep.StepRepeat | QueryAnalyseNginx/pcre-8.35/pcre_dfa_exec.c:2307-2527 | The repeats of characters and character types, all 13 kinds of each family |
| PcreStep.StepClass | QueryAnalyseNginx/pcre-8.35/pcre_dfa_exec.c:2533-2645 | Classes with and without repeats, with their bounds |
| PcreStep.FollowLinks | QueryAnalyseNginx/pcre-8.35/pcre_dfa_exec.c:819 | The do-while over links ends at the closing opcode |
| PcreDfa.RecordMatch | QueryAnalyseNginx/pcre-8.35/pcre_dfa_exec.c:790-801 | One more match: the vector holds the longest that fit, strictly decreasing; the count is the total, 0 on overflow, -1 for none |
| PcreDfa.WindowMoved | QueryAnalyseNginx/pcre-8.35/pcre_dfa_exec.c:793-800 | Why moving up and overwriting the front keeps the longest matches |
| PcreDfa.MoveUp | QueryAnalyseNginx/pcre-8.35/pcre_dfa_exec.c:794 | memmove by two words, overlapping |
| PcreDfa.UnusedShrinks | QueryAnalyseNginx/pcre-8.35/pcre_dfa_exec.c:2805-2815 | A call that passes the recursion check uses up one of finitely many (group, position) pairs: the measure by which nested runs end |
| PcreDfa.DepthBound | QueryAnalyseNginx/pcre-8.35/pcre_dfa_exec.c:2805-2815 | Calls nest at most (groups) times (length + 1) deep, the whole pattern counting as a group |
| PcreDfa.EdgeStays | QueryAnalyseNginx/pcre-8.35/pcre_dfa_exec.c:575-2866 | A run stays inside the instructions of its bracket and inside the subject |
| PcreExec.InternalDfaExec | QueryAnalyseNginx/pcre-8.35/pcre_dfa_exec.c:398-3142 | A run that does not fail reports exactly the matches from its start; partial exactly if asked for and some state could go on, softly only if there are no matches; it leaves the states to resume; the chain of calls is restored. If it fails, its vectors or those of a nested run are overloaded or it comes to a call at fault; if it does not, it comes to no call at fault |
| PcreExec.AlongSubject | QueryAnalyseNginx/pcre-8.35/pcre_dfa_exec.c:575-3142 | The loop along the subject, with the conditions for a partial match and for failing |
| PcreExec.ScanPosition | QueryAnalyseNginx/pcre-8.35/pcre_dfa_exec.c:638-3091 | The loop over the active states, which grow while they are acted on: a finished pass, and the match at this position recorded once |
| PcreExec.ActOn | QueryAnalyseNginx/pcre-8.35/pcre_dfa_exec.c:640-3089 | One active state: settle, drop a duplicate, record a match, call, or step |
| PcreExec.StepCall | QueryAnalyseNginx/pcre-8.35/pcre_dfa_exec.c:2789-2866 | A call: the recursion check, the nested run with a workspace of its own, and a state for each match it finds, waiting for its length; each error only for its reason |
| PcreExec.CallJudged | QueryAnalyseNginx/pcre-8.35/pcre_dfa_exec.c:2835-2866 | More than 500 matches are a fault; otherwise the call is safe, makes at most one state active, and leaves at most one for each position |
| PcreExec.AddCallStates | QueryAnalyseNginx/pcre-8.35/pcre_dfa_exec.c:2841-2863 | Those states, from the vector of the nested run, shortest first |
| PcreExec.CallExact | QueryAnalyseNginx/pcre-8.35/pcre_dfa_exec.c:2817-2826 | What the nested run finds is what the call matches |
| PcreExec.PushBranches | QueryAnalyseNginx/pcre-8.35/pcre_dfa_exec.c:553-566 | The first states are the branch starts; failure only if they do not fit |
| PcreExec.CouldContinueAtLast | QueryAnalyseNginx/pcre-8.35/pcre_dfa_exec.c:694-698 | At the last pass the flag says exactly whether some state of the run looks at a character behind the end of the subject |
| PcreExec.NotSeenYet | QueryAnalyseNginx/pcre-8.35/pcre_dfa_exec.c:771-811 | The end of the run is acted on once at each position, so no match is recorded twice |
| PcreRoom.BoundedStep | QueryAnalyseNginx/pcre-8.35/pcre_dfa_exec.c:352-393 | Acting on one more state keeps the vectors within a bound by the number of different states that can be reached at this position, and the states reachable |
| PcreRoom.BoundedWait | QueryAnalyseNginx/pcre-8.35/pcre_dfa_exec.c:659-668 | The same for a state that waits, which may stand in the vector more than once |
| PcreRoom.BoundedLast | QueryAnalyseNginx/pcre-8.35/pcre_dfa_exec.c:589-596 | What is left for the next position is within the bound for it |
| PcreRoom.CallIsSafe | QueryAnalyseNginx/pcre-8.35/pcre_dfa_exec.c:2805-2866 | A call is not at fault if its group is not being called from here already, it has at most 500 matches, and its nested run comes to no call at fault |
| PcreRoom.FitsIsSound | QueryAnalyseNginx/pcre-8.35/pcre_dfa_exec.c:352-393 | Without calls there are no more states than offsets times counts, so with that much room a run has nothing to fail of |
| PcreRoom.RoomForStep | QueryAnalyseNginx/pcre-8.35/pcre_dfa_exec.c:352-393 | If one more step does not fit, the states that can be reached at this position and before need as much room as there is |
| PcreSearch.PcreDfaExec | QueryAnalyseNginx/pcre-8.35/pcre_dfa_exec.c:3176-3670 | The search: all error returns, each exactly for its reason or, where a run fails, only for one; no match, a match or a partial match each with its exact meaning, a soft partial match only without matches; partial matches are not passed over, unless start points are skipped by hints that are not true of partial matches |
| PcreSearch.NextStart | QueryAnalyseNginx/pcre-8.35/pcre_dfa_exec.c:3434-3608 | The optimisations at one turn, with the cached place of the required character: nothing that matches is skipped, nor a partial match that the hints allow for |
| PcreSearch.Skip | QueryAnalyseNginx/pcre-8.35/pcre_dfa_exec.c:3443-3534 | First character, start of line or bitmap: likewise |
| PcreSearch.SkipToFirst | QueryAnalyseNginx/pcre-8.35/pcre_dfa_exec.c:3471-3484 | Stops at the first place with the first character |
| PcreSearch.SkipToLine | QueryAnalyseNginx/pcre-8.35/pcre_dfa_exec.c:3488-3506 | Stops just behind the next newline |
| PcreSearch.SkipToBits | QueryAnalyseNginx/pcre-8.35/pcre_dfa_exec.c:3522-3533 | Stops at the first character in the bitmap |
| PcreSearch.LineEnd | QueryAnalyseNginx/pcre-8.35/pcre_dfa_exec.c:3443-3459 | The end of the first line |
| PcreSearch.FindReq | QueryAnalyseNginx/pcre-8.35/pcre_dfa_exec.c:3579-3593 | Finds the next required character, if there is one |
| PcreSearch.LinesSkipped | QueryAnalyseNginx/pcre-8.35/pcre_dfa_exec.c:3488-3506 | Skipping starts that are not starts of lines skips no first match |
| PcreSearch.LinesSkippedPartial | QueryAnalyseNginx/pcre-8.35/pcre_dfa_exec.c:3488-3506 | Nor a first partial match |
| PcreSearch.FirstSkipped | QueryAnalyseNginx/pcre-8.35/pcre_dfa_exec.c:3471-3533 | Skipping starts without the right first character skips no partial match |
| PcreSearch.NoneAfter | QueryAnalyseNginx/pcre-8.35/pcre_dfa_exec.c:3552-3598 | A subject that is too short or lacks the required character rules out this and all later starts |
| NameTable.GetStringNumber | QueryAnalyseNginx/pcre-8.35/pcre_get.c:115-126 | Binary search finds the number of an entry with the name exactly if there is one |
| NameTable.GetStringTableEntries | QueryAnalyseNginx/pcre-8.35/pcre_get.c:198-237 | Finds the whole run of entries with the name, exactly if there is one |
| NameTable.Widen | QueryAnalyseNginx/pcre-8.35/pcre_get.c:207-222 | From any entry with the name the two loops reach all of them and no others |
| NameTable.GetFirstSet | QueryAnalyseNginx/pcre-8.35/pcre_get.c:291-300 | The number of the earliest entry of the run whose group is set; otherwise what the two bytes behind the run say |
| NameTable.FirstSetMeans | QueryAnalyseNginx/pcre-8.35/pcre_get.c:291-300 | The earliest entry of the run whose group has an offset that is not negative |
| NameTable.PromiseIsKept | QueryAnalyseNginx/pcre-8.35/pcre_get.c:258-300 | Where another entry follows the run and its number differs, the documented result (the last entry if no group is set) is returned exactly if some group of the run is set |
| NameTable.PromiseAtTheEnd | QueryAnalyseNginx/pcre-8.35/pcre_get.c:258-300 | Where the run ends the table, the same, or the code behind the table happens to start with the same number |
| NameTable.NoneSetExample | QueryAnalyseNginx/pcre-8.35/pcre_get.c:258-300 | A table whose only run has no group set, where a number out of the code is returned |
| NameTable.CompareIsEquality | QueryAnalyseNginx/pcre-8.35/pcre_get.c:120-122 | strcmp gives 0 exactly for equal names and is antisymmetric |
| NameTable.CompareIsTransitive | QueryAnalyseNginx/pcre-8.35/pcre_get.c:120-124 | strcmp is transitive, strictly if either step is |
| NameTable.Sorted | QueryAnalyseNginx/pcre-8.35/pcre_get.c:115-126 | A table in which neighbours are in order is sorted throughout, which is what binary search needs |
| NameTable.TableMeans | QueryAnalyseNginx/pcre-8.35/pcre_get.c:115-126 | For any list of groups written as entries (number in two bytes, the high one first, name, zeros), with any code behind: the numbers and names that are read are theirs |
| NameTable.CompareMeans | QueryAnalyseNginx/pcre-8.35/pcre_get.c:120-122 | strcmp is negative exactly if the first byte that differs is smaller or the name is a proper beginning of the other |
| Utf16.ValidUtf | QueryAnalyseNginx/pcre-8.35/pcre16_valid_utf16.c:88-126 | Accepts exactly the encodings of lists of Unicode scalar values; otherwise the code and the offset say what is wrong, and what comes before is well formed |
| Utf16.Check | QueryAnalyseNginx/pcre-8.35/pcre16_valid_utf16.c:96-126 | The loop over the units |
| Utf16.Ord2Utf | QueryAnalyseNginx/pcre-8.35/pcre16_ord2utf16.c:72-81 | Writes the units of a character (section 2.1 of RFC 2781) and leaves the rest of the buffer alone |
| Utf16.GetCharInc | QueryAnalyseNginx/pcre-8.35/pcre_internal.h:846-854 | In an accepted string reads a scalar value whose units stand there and reads nothing behind the string |
| Utf16.DecodeUndoesEncode | QueryAnalyseNginx/pcre-8.35/pcre_internal.h:846-854 | Every list of scalar values is read back from its units |
| Utf16.EncodeUndoesDecode | QueryAnalyseNginx/pcre-8.35/pcre_internal.h:846-854 | Accepted units are the encoding of exactly one list, the one that is read |
| Utf16.MisfitIsFinal | QueryAnalyseNginx/pcre-8.35/pcre16_valid_utf16.c:104-124 | Behind a well-formed beginning, a surrogate that does not fit makes every continuation ill formed |
| Utf16.JoinSplits | QueryAnalyseLib/cJSON.c:189 | A pair of surrogates is joined as it is split |
| Utf16.UnitsMean | QueryAnalyseNginx/pcre-8.35/pcre16_ord2utf16.c:72-81 | One unit below 10000 (hexadecimal), otherwise a high and a low surrogate whose ten bits each make up the rest |
| Utf16.MisfitMeans | QueryAnalyseNginx/pcre-8.35/pcre16_valid_utf16.c:104-124 | What does not fit, by the numbers of the surrogates: a low one first, or a high one without a low one behind it |
| JsonGrammar.TextIsRead | QueryAnalyseLib/cJSON.c:264-278 | Every text of the grammar of RFC 8259, with blanks around it, is parsed as what the grammar means by it |
| JsonGrammar.DocIsRead | QueryAnalyseLib/cJSON.c:287-439 | Every value of the grammar, at any place in a text, is read as what it means and to its end |
| JsonGrammar.StringIsRead | QueryAnalyseLib/cJSON.c:155-212 | Every string of the grammar: escapes with one letter, with four digits, and pairs of them |
| JsonGrammar.ShortIsRead | QueryAnalyseLib/cJSON.c:170-202 | A backslash and a letter, at any place in a string: 8, 12, 10, 13 and 9 for b, f, n, r and t, and any other character but u itself |
| JsonGrammar.NumIsRead | QueryAnalyseLib/cJSON.c:96-115 | Every number of the grammar, with fraction and exponent, has its decimal value |
| JsonGrammar.Utf8Bytes | QueryAnalyseLib/cJSON.c:192-200 | The bytes of a code point and the bits in them (section 3 of RFC 3629) |
| JsonAccepted.ValueWas | QueryAnalyseLib/cJSON.c:287-439 | The converse: what the parser accepts is a text of the grammar, but that a code unit may have any four bytes, a number may lack digits or have a zero in front, and a string may end with the text |
| JsonAccepted.StringWas | QueryAnalyseLib/cJSON.c:155-212 | The converse for strings, with what they are read as |
| JsonAccepted.NumberWas | QueryAnalyseLib/cJSON.c:96-115 | The converse for numbers, with their values |
| JsonErrors.TextIsRefused | QueryAnalyseLib/cJSON.c:264-298 | A text that follows the grammar up to some byte, inside any number of arrays and objects, and has something wrong there (no value, no name, no colon, neither comma nor closing bracket) is refused with the error pointer at that byte, whatever stands behind it |
| JsonErrors.FlawIsFound | QueryAnalyseLib/cJSON.c:287-439 | The same for a value at any place in a text |
| JsonErrors.TextIsFollowed | QueryAnalyseLib/cJSON.c:271-276 | With something else behind the value: the end reported is right behind the value; if nothing may stand there the text is refused at the first byte that is no blank |
| JsonLayout.PrintedIsLaid | QueryAnalyseLib/cJSON.c:302-507 | The printed text of every value, byte by byte: separators, tabs by depth, newlines |
| JsonLayout.CharIsEscaped | QueryAnalyseLib/cJSON.c:226-242 | How each character is printed inside a string |
| JsonLayout.DecimalDigits | QueryAnalyseLib/cJSON.c:124-125 | The digits of a number have its value and no zero in front |
| JsonComments.PartsThenText | QueryAnalyseLib/cJSON.c:581-596 | For any text made of strings, comments, blanks and other characters, followed by any text: what is left is the strings and the other characters, and then what is left of the rest |
| JsonComments.MinifyLeaves | QueryAnalyseLib/cJSON.c:581-596 | The same for a whole text |
| JsonComments.LineIsDropped | QueryAnalyseLib/cJSON.c:590 | A comment up to the end of its line makes no difference, outside of strings and comments and whatever follows |
| JsonComments.BlockIsDropped | QueryAnalyseLib/cJSON.c:591 | Likewise a comment between slashes and stars, of which the star after the first slash may already be the last |
| JsonComments.TextHasParts | QueryAnalyseLib/cJSON.c:581-596 | Every text that Minify does not read past is made of such parts |
| JsonRoundTrip.ValueRoundTrip | QueryAnalyseLib/cJSON.c:287-507 | Parsing what was printed, formatted or not, with any text behind it, gives the value and stops at its end, exactly unless the value is a number that the text behind extends |
| JsonRoundTrip.PrintedTextParses | QueryAnalyseLib/cJSON.c:264-284 | cJSON_Parse undoes cJSON_Print and cJSON_PrintUnformatted |
| JsonRoundTrip.PrintingIsInjective | QueryAnalyseLib/cJSON.c:283-317 | Different values have different texts |
| JsonRoundTrip.NumberRoundTrip | QueryAnalyseLib/cJSON.c:96-126 | A printed int is read as the same number, unless what follows extends it, and then the parser goes too far |
| JsonRoundTrip.StringRoundTrip | QueryAnalyseLib/cJSON.c:155-248 | Unescaping undoes escaping for every string without a NUL |
| JsonStrings.ParseStringInto | QueryAnalyseLib/cJSON.c:155-212 | Both passes, for every text on which they stay inside the text and the buffer: the buffer is as large as the first pass has counted and holds what the escapes are read as, and where the string ends |
| JsonStrings.TranscodeIsMeaning | QueryAnalyseLib/cJSON.c:179-201 | The bytes are those the escapes mean (section 7 of RFC 8259) exactly if no high surrogate uses up an escape that means something |
| JsonStrings.UsedUpExample | QueryAnalyseLib/cJSON.c:184-188 | The escapes D800 and 0041 in a row are read as the empty string |
| JsonEscapes.SoundIsInStep | QueryAnalyseLib/cJSON.c:160-206 | Both passes end the string at the same place and the buffer is not overrun exactly if every escape has the byte it needs and the four bytes of a code unit hold no quote or end of the text but behind a backslash, a last backslash among them not leading to one either |
| JsonEscapes.Together | QueryAnalyseLib/cJSON.c:160-206 | The same, from any place in a string |
| JsonEscapes.ThroughPlain | QueryAnalyseLib/cJSON.c:180 | Of four bytes without a backslash none must be a quote or the end of the text |
| JsonEscapes.OverrunExample | QueryAnalyseLib/cJSON.c:160-206 | A code unit with a quote among its four bytes: the first pass counts one, the second writes as many bytes as letters follow |
| JsonEscapes.NoDigitsExample | QueryAnalyseLib/cJSON.c:140-182 | Four bytes that are no digits are accepted and read as nothing |
| JsonEscapes.UnterminatedIsRead | QueryAnalyseLib/cJSON.c:160-208 | A string without a closing quote is accepted and read up to the end of the text |
| JsonEscapes.CountIsWidth | QueryAnalyseLib/cJSON.c:160 | Where the four bytes hold neither quote nor backslash, the first pass counts one for a character and five for a code unit |
| JsonEscapes.TranscodeFits | QueryAnalyseLib/cJSON.c:160-207 | What is written is never longer than what was counted, for every string that both passes end at the same place |
| JsonStrings.Measure | QueryAnalyseLib/cJSON.c:160 | The first pass, for every text whose end it does not miss |
| JsonStrings.Fill | QueryAnalyseLib/cJSON.c:165-208 | The second pass |
| JsonStrings.TakeUnit | QueryAnalyseLib/cJSON.c:179-201 | One code unit or one pair, digits or not |
| JsonStrings.PutUtf8 | QueryAnalyseLib/cJSON.c:192-200 | The bytes of a code point, written from the last one back (section 3 of RFC 3629) |
| JsonStrings.Utf8RoundTrip | QueryAnalyseLib/cJSON.c:192-200 | They can be read back whatever follows, and only the first is not a continuation byte |
| JsonStrings.PrintStringPtr | QueryAnalyseLib/cJSON.c:215-248 | The buffer is filled exactly, with the quoted and escaped string and its terminating zero |
| JsonStrings.MeasureEscaped | QueryAnalyseLib/cJSON.c:220 | The first pass counts the escaped length |
| JsonMinify.Minify | QueryAnalyseLib/cJSON.c:581-596 | In place: what is left, then a zero, with nothing behind changed; the write index never passes the read index |
| JsonMinify.MinifyFormattedIsCompact | QueryAnalyseLib/cJSON.c:283-596 | cJSON_Minify turns the formatted text of a value into its compact text |
| JsonMinify.ValueLeaves | QueryAnalyseLib/cJSON.c:302-507 | The same for a value inside any text |
| JsonMinify.CopyString | QueryAnalyseLib/cJSON.c:592 | A string is copied whole, with escaped quotes |
| JsonMeaning.MinifyKeepsValue | QueryAnalyseLib/cJSON.c:264-299 | A text that is parsed as a whole is parsed as the same value after cJSON_Minify, if the two passes of parse_string are in step on each string that is read |
| JsonMeaning.ValueAligned | QueryAnalyseLib/cJSON.c:287-299 | The same for a value inside a text, with the places where it ends |
| JsonMeaning.MinifyChangesExample | QueryAnalyseLib/cJSON.c:581-596 | A text with a quote among the four bytes of a code unit, for which the value changes |
| JsonMeaning.OutOfStepExample | QueryAnalyseLib/cJSON.c:581-596 | A text with such a string that Minify leaves as it is: being in step is not necessary |
| JsonPrint.Print | QueryAnalyseLib/cJSON.c:302-317 | print_value gives the text of the value as a C string, which is all that it leaves allocated; or nothing, for lack of memory, and then all that had been allocated is freed |
| JsonPrint.PrintArray | QueryAnalyseLib/cJSON.c:348-403 | print_array: sizes, allocates, composes; the same, whichever allocation fails |
| JsonPrint.PrintObject | QueryAnalyseLib/cJSON.c:442-507 | print_object: sizes, allocates, composes; the same |
| JsonPrint.PrintEmptyObject | QueryAnalyseLib/cJSON.c:451-459 | An empty object fits its buffer of depth + 4; formatted, it has one tab less than other objects |
| JsonPrint.CollectItems | QueryAnalyseLib/cJSON.c:368-376 | The length that is added up is enough for the items, unless one fails; what is new is the texts in the array, each once |
| JsonPrint.ComposeArray | QueryAnalyseLib/cJSON.c:391-401 | Composing in a buffer of exactly that length never writes past it, and frees each text once |
| JsonPrint.FreeItems | QueryAnalyseLib/cJSON.c:384-389 | After a failure every text that was printed is freed, and the array |
| JsonPrint.CollectMembers | QueryAnalyseLib/cJSON.c:468-476 | The length that is added up is enough for names and values, unless one fails; what is new is the texts in the two arrays, each once |
| JsonPrint.CollectMember | QueryAnalyseLib/cJSON.c:472-474 | One name and one value, either of which may fail |
| JsonPrint.ComposeObject | QueryAnalyseLib/cJSON.c:490-506 | Composing in a buffer of exactly that length never writes past it, and frees each text once |
| JsonPrint.FreeMembers | QueryAnalyseLib/cJSON.c:483-488 | After a failure every name and value that was printed is freed, and the two arrays |
| JsonPrint.PrintNumber | QueryAnalyseLib/cJSON.c:118-126 | An int fits its 21 bytes |
| JsonPrint.IntLength | QueryAnalyseLib/cJSON.c:124-125 | An int takes at most 11 characters |
| JsonPrint.StrLen | QueryAnalyseLib/cJSON.c:374 | strlen |
| JsonPrint.StrCpy | QueryAnalyseLib/cJSON.c:396 | strcpy, which needs its room |
| JsonParse.ParseWithOpts | QueryAnalyseLib/cJSON.c:264-278 | Gives the value of the text with exactly its nodes and strings allocated and no neighbours, or fails, for a bad text or any failing malloc, with everything freed that had been allocated |
| JsonParse.ParseAndDelete | QueryAnalyseLib/cJSON.c:81-93 | Parsing and then deleting the result leaves allocated what was allocated before, for every text that is safe to parse and whichever malloc fails |
| JsonParse.ParseNode | QueryAnalyseLib/cJSON.c:287-299 | parse_value on a node: the value, or the place of the error; what is new in the node is what was allocated |
| JsonParse.ParseArray | QueryAnalyseLib/cJSON.c:320-345 | parse_array: each node is linked before it is parsed |
| JsonParse.ParseObject | QueryAnalyseLib/cJSON.c:406-439 | parse_object, with the name moved from valuestring |
| JsonParse.ParseMoreItems | QueryAnalyseLib/cJSON.c:334-344 | The loop over items |
| JsonParse.ParseMoreMembers | QueryAnalyseLib/cJSON.c:424-438 | The loop over members |
| JsonParse.ParseMember | QueryAnalyseLib/cJSON.c:426-434 | One member: linked, named, parsed |
| JsonParse.ParseStringNode | QueryAnalyseLib/cJSON.c:155-212 | parse_string on a node |
| JsonParse.ParseNumber | QueryAnalyseLib/cJSON.c:96-115 | Scaling once at the end gives the value that the digits, the fraction and the exponent stand for |
| JsonParse.ScaleAtEnd | QueryAnalyseLib/cJSON.c:102-109 | Why it does |
| JsonParse.SkipBlanks | QueryAnalyseLib/cJSON.c:261 | skip |
| JsonParse.Delete | QueryAnalyseLib/cJSON.c:81-93 | Frees the nodes of a list and all they own, each exactly once |
| JsonNodes.Append | QueryAnalyseLib/cJSON.c:515-520 | Appending keeps both directions of the links; as sequences of values and names the list grows by one |
| JsonNodes.LinksAppend | QueryAnalyseLib/cJSON.c:515 | Linking behind the last node |
| JsonEdit.AddItemToArray | QueryAnalyseLib/cJSON.c:520 | Appends, for any list and any node apart from it |
| JsonEdit.DetachItemFromArray | QueryAnalyseLib/cJSON.c:525-526 | Removes the child at the index (the first for a negative one) and gives the node out, still whole and unlinked; nothing changes if the index is too large |
| JsonEdit.ReplaceItemInArray | QueryAnalyseLib/cJSON.c:532-534 | Updates at the index (the first for a negative one) and deletes what was there |
| JsonNodes.LinksMean | QueryAnalyseLib/cJSON.c:515 | What the links of a list say, in both directions |
| JsonNodes.KindsMean | QueryAnalyseLib/cJSON.h:33-39 | Which value a node with each type number stands for |
| JsonEdit.Unlink | QueryAnalyseLib/cJSON.c:526 | The links without the node, in both directions |
| JsonEdit.Relink | QueryAnalyseLib/cJSON.c:533-534 | The links with the other node, in both directions |
| JsonEdit.Duplicate | QueryAnalyseLib/cJSON.c:554-579 | An equal tree of new nodes, with the original unchanged; or nothing, and no memory lost |
| JsonEdit.DuplicateKids | QueryAnalyseLib/cJSON.c:568-577 | The children, in order |
| JsonRuns.RunEdits | QueryAnalyseLib/cJSON.c:520-534 | After any sequence of Add, Detach and Replace that takes separate trees from a pool: the children are those of a plain sequence under append, remove-at and update-at, linked in both directions without cycles; list and pool stay separate and allocated; no tree changes |
| JsonRuns.RunDetach | QueryAnalyseLib/cJSON.c:525-526 | One edit of such a run: the detached tree goes to the pool |
| JsonRuns.RunReplace | QueryAnalyseLib/cJSON.c:532-534 | One edit of such a run: the replaced tree is gone |
| JsonRuns.RunAdd | QueryAnalyseLib/cJSON.c:520 | One edit of such a run: the tree leaves the pool |
| TsCodePoints.HanIsTranslated | QueryAnalyseLib/QueryAnalyseNew/ts_chinese_translate.c:231-256 | A Chinese character at the start of any text becomes the value of its first dictionary entry, or stays if it has none; the rest is translated by itself |
| TsCodePoints.OthersAreCopied | QueryAnalyseLib/QueryAnalyseNew/ts_chinese_translate.c:238-253 | Any other code point and any ASCII character is copied |
| TsCodePoints.CodeMeans | QueryAnalyseLib/QueryAnalyseNew/ts_chinese_translate.c:28-87 | Of the code points below 40000, exactly 3400 to 4DB5, 4E00 to 9FCB and 20000 to 2A6D6 make a Chinese character, whatever follows (all hexadecimal) |
| TsCodePoints.AsciiMeans | QueryAnalyseLib/QueryAnalyseNew/ts_chinese_translate.c:23-27 | The types of ASCII characters |
| TsCodePoints.ThreeMeans | QueryAnalyseLib/QueryAnalyseNew/ts_chinese_translate.c:28-61 | The three bytes of a code point: length 3, Chinese exactly for 3400 to 4DB5 and 4E00 to 9FCB |
| TsCodePoints.FourMeans | QueryAnalyseLib/QueryAnalyseNew/ts_chinese_translate.c:62-87 | The four bytes of a code point: length 4, Chinese by what the code computes, with its multiplier |
| TsCodePoints.OthersMean | QueryAnalyseLib/QueryAnalyseNew/ts_chinese_translate.c:88-107 | The lengths 1, 2, 5 and 6 of everything else |
| TsCodePoints.CutOffMeans | QueryAnalyseLib/QueryAnalyseNew/ts_chinese_translate.c:29-107 | A lead byte with too few continuation bytes behind it stands alone |
| TsCodePoints.HashMeans | QueryAnalyseLib/QueryAnalyseNew/ts_chinese_translate.c:7-13 | The hash is multiplied by 65599 for each byte, which counts as signed, in 32 bits, and cut to 31 |
| TsTranslate.TraditionalAndBack | QueryAnalyseLib/QueryAnalyseNew/ts_chinese_translate.c:231-256 | Traditional to simplified and back restores a text, stray and cut-off bytes included, exactly if every character in it that is a value of the dictionary is a key as well |
| TsTranslate.ThereAndBack | QueryAnalyseLib/QueryAnalyseNew/ts_chinese_translate.c:231-256 | For any two dictionaries: the text comes back exactly if each of its characters does |
| TsTranslate.SegmentsStable | QueryAnalyseLib/QueryAnalyseNew/ts_chinese_translate.c:231-256 | The characters of the translated text are the translated characters |
| TsTranslate.FirstTranslated | QueryAnalyseLib/QueryAnalyseNew/ts_chinese_translate.c:238-253 | The first character of the translated text is the translated first character |
| TsTranslate.TranslatedRun | QueryAnalyseLib/QueryAnalyseNew/ts_chinese_translate.c:15-108 | Translating does not change which continuation bytes a text starts with |
| TsTranslate.Translate | QueryAnalyseLib/QueryAnalyseNew/ts_chinese_translate.c:231-256 | The word list is the characters of the text, each looked up if it is Chinese, in the table the flag says; nothing behind is changed |
| TsTranslate.TranslateOne | QueryAnalyseLib/QueryAnalyseNew/ts_chinese_translate.c:238-253 | One turn of its loop |
| TsTranslate.Substring | QueryAnalyseLib/QueryAnalyseNew/ts_chinese_translate.c:217-229 | A new buffer with the bytes and zeros behind them, with room for three more |
| TsTranslate.AddLine | QueryAnalyseLib/QueryAnalyseNew/ts_chinese_translate.c:170-171 | A line of the dictionary goes into both tables, which stay mirror images |
| TsSegments.CharType | QueryAnalyseLib/QueryAnalyseNew/ts_chinese_translate.c:15-108 | Branch by branch: length and type of the first character |
| TsSegments.FirstDepends | QueryAnalyseLib/QueryAnalyseNew/ts_chinese_translate.c:15-108 | They depend on the first byte and the continuation bytes behind it only |
| TsSegments.CharacterAlone | QueryAnalyseLib/QueryAnalyseNew/ts_chinese_translate.c:29-87 | A complete Chinese character stays one whatever follows it |
| TsSegments.FirstAlone | QueryAnalyseLib/QueryAnalyseNew/ts_chinese_translate.c:29-87 | A Chinese character found in a text is one by itself |
| TsSegments.SegmentsJoin | QueryAnalyseLib/QueryAnalyseNew/ts_chinese_translate.c:231-256 | The characters put together are the text |
| TsTable.Table.Create | QueryAnalyseLib/QueryAnalyseNew/ts_chinese_translate.c:121-153 | One more entry, put at the end of its chain, which keeps its end mark; the other chains are untouched |
| TsTable.Table.Check | QueryAnalyseLib/QueryAnalyseNew/ts_chinese_translate.c:202-214 | The value of the first entry inserted with the word as key, or the word itself |
| TsTable.Table.FindEnd | QueryAnalyseLib/QueryAnalyseNew/ts_chinese_translate.c:124-127 | The walk ends at the end mark |
| TsTable.Table.constructor | QueryAnalyseLib/QueryAnalyseNew/ts_chinese_translate.c:110-117 | All chains empty |
| TsTable.LookupWithTag | QueryAnalyseLib/QueryAnalyseNew/ts_chinese_translate.c:203-213 | Looking in the chain of the word's hash is looking among all entries |
| TsTable.LookupAppend | QueryAnalyseLib/QueryAnalyseNew/ts_chinese_translate.c:121-136 | A later entry does not replace an earlier one with the same key |
| TsTable.SDBMHash | QueryAnalyseLib/QueryAnalyseNew/ts_chinese_translate.c:7-13 | The hash, in 32 bits with signed characters, and its place in the table |

## Left out

PCRE's matcher:

- Configuration: the 8-bit library without UTF and UCP, LINK_SIZE 2, and one fixed newline character, as in `config.h`; CRLF and ANY newlines are not modelled.
- Opcodes: assertions, conditionals, callouts, ONCE, possessive brackets (BRAPOS, KETRPOS), CRPOSRANGE, REVERSE, XCLASS, properties, \R, \h, \v, \X, backtracking verbs. They decode to nothing, and valid code has none of them.
- PCRE_DFA_SHORTEST, which returns at the first match.
- The compiler: `PcrePattern` is its own definition of the code for a tree, after the layout in `pcre_internal.h`.
- PcreSearch.PcreDfaExec: the hints (first character, start bits, start of line, minimum length, required character) are taken to be true of the pattern, as compiling and studying promise. Restarting needs a workspace that a partial match has left; the check in the code admits others, which the model does not describe. If the hints are true of matches only, and not of everything that gets past a character, a start point at which only a partial match is possible may be skipped.
- PcreTheorems.RestartIsOneRun: patterns that call no group, since a nested run reports only its matches and drops the states that could go on; `PcreExamples.CallAcrossJoinExample` shows a match that is lost.
- PcreTheorems.PartialThenRestart: likewise.
- PcreTheorems.RelayIsWhole: runs that meet no call, likewise.
- PcreRoom.RoomForStep: a bound for the room that is needed, not the exact number of entries; whether a run whose vectors are smaller than that fails of it is not said.
- PcreTheorems.FailureIsExact: which of several calls at fault is met first, and so which of the two errors is returned, is not said.
- Null and option checks, magic numbers and saved tables at the start of `pcre_dfa_exec`.

cJSON:

- JsonErrors.TextIsRefused: the part before the flaw is of the grammar; where a text is refused that also uses what the parser accepts besides is not said.
- JsonParse.ParseNumber: real arithmetic, without the rounding of double, and without overflow of the exponent's int.
- JsonRoundTrip.ValueRoundTrip: numbers that are not ints are never printed, as `%f` and `%e` output is not modelled.
- JsonParse.ParseWithOpts: texts with a string on which `parse_string` reads behind the end of the text or writes behind the end of its buffer are excluded, and no others; `JsonEscapes.SoundIsInStep` says which strings are safe.
- JsonStrings.ParseStringInto: likewise.
- JsonMeaning.MinifyKeepsValue: where the two passes of `parse_string` end a string that is read at different places, Minify may change its value or not; which texts of that kind keep their value is open (`JsonMeaning.MinifyChangesExample` and `JsonMeaning.OutOfStepExample` show one of each).
- JsonMinify.Minify: texts with a string or comment cut off by their end, which the loops read past, are excluded.
- JsonPrint.Print: a tree of values is printed instead of nodes, so walking the list of children is not part of it, nor a string or name that is null.
- JsonPrint.PrintArray: likewise.
- JsonPrint.PrintObject: likewise.
- The field valueint, which is valuedouble made an int.
- References (`cJSON_IsReference`), looking up members by name, AddItemToObject and the other functions that combine what is here, hooks, and the create functions.
- Bit operations are written as arithmetic on numbers.

Translation:

- Reading the dictionary file, `freeTS`, sizes of the copies of words; words are values.

Helpers of PCRE:

- `pcre_fullinfo`, copying out substrings, and the 16-bit and 32-bit forms of the name functions.
- The UTF-16 functions do nothing in the configuration of the repository, which has no UTF support; the model is of their code with it.

Elsewhere in the repository: fetching over the network, threads, assembling queries, and the other two copies of `cJSON.c`, which are identical.
