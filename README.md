# Multi-word expression contraction (Swectors `contract.py`)

This project models the core of `Swectors/contract.py`. That code reads sentences of a Korp corpus. For each word, its `lex`, `saldo` or `lemma` annotation lists candidate lexical entries separated by `|`. A candidate that holds the mode's separator (`_` for `lex`/`saldo`, a space for `lemma`) is part of a multi-word expression (MWE). Later members of an MWE carry a reference `:N` to the 1-based position of its first word.

`check_mwe` turns one sentence into one entry per word position. It keeps each MWE only at the position of its first word:

- Every candidate tuple (one candidate per uncertain word) is built.
- Tuples whose references are invalid are discarded.
- Heuristics then pick one tuple: the one that uses most words in MWEs, then the leftmost longest MWE.
- Finally the chosen tuple is written into the position map (`savelex`).

Modules, one concern each:

- `Seqs`: sequence helpers (filter, first-occurrence removal, subsequence).
- `Lexes`: the string operations the source performs with `str` methods and regular expressions, written out:
  - `:\d+` removal;
  - `split('..')[0]`;
  - `\.\..+`;
  - `.+:\d+$`;
  - `(.+:)(\d+)`;
  - `int()`.
- `Materialise`: `savelex` as a sequence of slots indexed by word position, `Deleted | Unresolved | Resolved(lex)`. A key popped from the dict is `Deleted`; a `None` value is `Unresolved`. This module also holds `combination_to_out` as a specification function.
- `Peeling`: `remove_leading_non_mwes` and `save_first_mwe` as specification functions on (combinations, slots).
- `Savelex`: class `PositionMap`, whose field `slots` is the mutable `savelex`. Its methods update it in place and are proved equal to the `Materialise`/`Peeling` functions. Its module-level methods are the loops of those two functions.
- `Join`: `comp_lex` and `join_identicals`. The method is proved equal to a grouping function; the grouping is proved to be a partition with distinct keys, kept in order.
- `Selection`: the scoring filters:
  - `get_max_mwe_words` and `get_best_leftmost`;
  - `remove_identicals`, both as written and corrected (see Findings); `check_mwe` uses the corrected one.
- `Validity`: `get_valid_combinations`. The method is proved equal to a filter; the filter's predicate is characterised.
- `Contract`: `check_mwe`: the candidate lists, the initial classification, `itertools.product`, and the narrowing loops.

Exceptions the source would raise become explicit failures: `None` from a specification function, `ok == false` from a method, and `Crashed` from `CheckMwe`. These exceptions are:

- the `re.sub` of line 51 on the value of a referenced key that is still `None` (a reference to a word not yet filled);
- an `IndexError` on an empty combination;
- a `ValueError` from `int()`.

`CheckMwe` distinguishes `Inapplicable`, for the deliberate `return None`, from `Lexes(out)`.

## Model

| member | source | states |
|---|---|---|
| Lexes.SepFor | Swectors/contract.py:432-436 | the separator is a space in lemma mode and `_` in every other mode |
| Lexes.StripRefsNoRefs | Swectors/contract.py:50-51 | removing `:\d+` leaves no colon followed by a digit |
| Lexes.StripRefsIdempotent | Swectors/contract.py:50-51 | removing `:\d+` twice is the same as once |
| Lexes.BeforeDotsPrefix | Swectors/contract.py:107 | `split('..')[0]` is a prefix without `..`, and the whole string when there is no `..` |
| Materialise.MaterialisedFacts | Swectors/contract.py:33-60 | filling a non-empty combination keeps every resolved slot and leaves no `None`. The k-th `None` slot gets the combination's k-th element, or is deleted exactly when that element's `:N` names a key that holds the same candidate once `:\d+` is removed. The output is the resolved values in key order, at most one per key, except that a filled candidate with a `:` but no `(.+:)(\d+)` match is stored in its slot and not output (lines 44-47). |
| Materialise.ValuesResolved | Swectors/contract.py:25-27 | once nothing is pending, the values of all keys are the resolved lexes |
| Materialise.KeyCountMono | Swectors/contract.py:53 | filling only removes keys, it never adds one |
| Savelex.PositionMap.constructor | Swectors/contract.py:482 | the map starts with the given slots |
| Savelex.PositionMap.CombinationToOut | Swectors/contract.py:17-60 | succeeds exactly when the specification of filling succeeds, and then leaves the slots and returns the output it defines. An empty combination returns the current values unchanged. |
| Savelex.CheckReference | Swectors/contract.py:39-51 | reports a candidate with a `:` but no `(.+:)(\d+)` match as unmatched, which is neither pending nor popped. Otherwise it reports a pending referenced key (the crash of line 51) exactly when the candidate names a key still `None`, and pops the slot exactly when the named key holds the same candidate up to `:\d+` |
| Savelex.PositionMap.RemoveLeadingNonMwes | Swectors/contract.py:244-285 | fails exactly where `mincounter` is larger than the first combination. Otherwise the new slots and combinations are those of the peeling specification. |
| Savelex.PositionMap.FillLeadingSlots | Swectors/contract.py:278-284 | fills the first `None` slots, in key order, with the removed words |
| Savelex.PositionMap.FirstPendingRef | Swectors/contract.py:367-373 | the 1-based position of the first `None` slot, or 0 when there is none |
| Savelex.PositionMap.SaveFirstMwe | Swectors/contract.py:348-417 | fails exactly where the source raises. Otherwise the new slots and combinations are those of the save-first specification. |
| Savelex.PositionMap.CommitSlots | Swectors/contract.py:398-416 | the slots become the commit of the first MWE at the matched positions |
| Savelex.CountLeadingNonMwes | Swectors/contract.py:257-262 | the count is the number of leading entries with no inner separator, and the next entry has one |
| Savelex.ComputeMinCounter | Swectors/contract.py:253-264 | the result is `mincounter`, with 0 treated as unset |
| Savelex.DropLeading | Swectors/contract.py:268-276 | every combination loses its first `mincounter` entries and the empty ones are dropped |
| Savelex.FindMweMembers | Swectors/contract.py:378-382 | the positions and lexes of the later members of the first MWE whose reference is the first pending key |
| Savelex.RemoveMatchedFrom | Swectors/contract.py:386-395 | removes the members in order, each at its next occurrence |
| Savelex.RemoveMatchedAll | Swectors/contract.py:385-396 | applies that removal to every combination |
| Peeling.MinCounterIsMin | Swectors/contract.py:253-264 | with no zero counts, `mincounter` is the least leading count |
| Peeling.FillLeadingFacts | Swectors/contract.py:278-284 | filling only turns `None` slots into lexes, and those lexes are the removed words in order |
| Peeling.LeadingPeeledSlots | Swectors/contract.py:244-285 | only `None` slots change, and they receive exactly the first `min(mincounter, #None)` words of the first combination |
| Peeling.LeadingPeeledCombos | Swectors/contract.py:274-276 | every remaining combination is a tail of an input combination |
| Peeling.DroppedAreTails | Swectors/contract.py:274-276 | after dropping, every kept combination is non-empty and a suffix of an input |
| Peeling.RemoveMatchedFacts | Swectors/contract.py:385-396 | the reduced combination is a subsequence, and it is shorter by exactly the members when they occur in order |
| Peeling.MweMembersFacts | Swectors/contract.py:378-382 | the positions found are increasing and each is paired with the combination's entry at that position. A position after the first lex is found exactly when its entry has the first lex's stripped form, holds a `:` and refers to `ref`. |
| Peeling.CommitFrame | Swectors/contract.py:398-416 | committing only changes `None` slots, into the first lex or a deletion |
| Peeling.CommitNoMoreFirst | Swectors/contract.py:404-413 | after the first slot, committing only deletes |
| Peeling.CommitHead | Swectors/contract.py:404-407 | the first `None` slot receives the first lex, and no other slot does |
| Peeling.CommitPops | Swectors/contract.py:408-413 | once `counter` is past 0, a `None` slot is popped exactly when its running count is one of the member positions, and stays `None` otherwise |
| Peeling.CommitRanks | Swectors/contract.py:398-416 | from `counter == 0`, the `None` slot of rank 0 takes the first lex, and the one of rank n > 0 is popped exactly when n is a member position |
| Peeling.SavedPops | Swectors/contract.py:378-413 | the `None` slot of rank n takes the first lex for n = 0, is popped exactly when entry n of the first combination is a found member, and stays `None` otherwise |
| Peeling.FirstMweSavedFacts | Swectors/contract.py:348-417 | the number of slots and of combinations is kept, only `None` slots change, and the first pending slot receives `combinations[0][0]`. Each combination shrinks to a subsequence. Counting the `None` slots from 0 in key order, the one of rank n > 0 is popped exactly when entry n of the first combination is a member found for the MWE, and stays `None` otherwise (lines 408-413). |
| Join.JoinIdenticals | Swectors/contract.py:156-182 | the result equals `Joined`: one `|`-joined group per comparison key, in order |
| Join.JoinFirstGroup | Swectors/contract.py:166-181 | one pass joins the group of the first lex and leaves the other lexes in order |
| Join.CollectSameComp | Swectors/contract.py:174-178 | collects, in order, the lexes with the first lex's key |
| Join.CollectOne | Swectors/contract.py:175-178 | one lex joins the group exactly when it has the first lex's key, keeping the group equal to the same-key lexes seen so far |
| Join.RemoveEach | Swectors/contract.py:179-180 | removing the group leaves exactly the lexes with other keys |
| Join.GroupsPartition | Swectors/contract.py:163-182 | the groups hold every input lex exactly once, counting duplicates |
| Join.GroupsKeyed | Swectors/contract.py:174-178 | each group is non-empty and holds all lexes of its head's key |
| Join.GroupsDistinct | Swectors/contract.py:164-181 | no two groups share a comparison key |
| Join.GroupHeadsInOrder | Swectors/contract.py:164-181 | the group heads appear in input order |
| Join.SameCompHead | Swectors/contract.py:166-177 | a group's head is the first input lex with that key |
| Join.CompLexIgnoresTag | Swectors/contract.py:138-149 | a lex with a trailing reference compares as its base plus the reference, whatever its POS/sense tag |
| Join.CompLexNoRef | Swectors/contract.py:151-152 | a lex without a reference compares as its base alone |
| Selection.MaxScore | Swectors/contract.py:223-232 | the maximum score, attained by some combination, and -1 for none |
| Selection.KeepBestFacts | Swectors/contract.py:223-241 | keeps, in order, exactly the combinations with the highest score |
| Selection.GetMaxMweWordsFacts | Swectors/contract.py:217-241 | keeps, in order, exactly the combinations with the most MWE words, and never empties a non-empty list |
| Selection.GetBestLeftmostFacts | Swectors/contract.py:288-311 | keeps, in order, exactly the combinations whose first MWE is longest |
| Selection.FirstMweLengthFull | Swectors/contract.py:604-606 | when every entry shares the first entry's stripped form, the first MWE spans the combination |
| Selection.DigitRunEnd | Swectors/contract.py:201 | the end of the run of digits at `i` |
| Selection.SaldoMatchEnd | Swectors/contract.py:201 | a match of `\.{2}.+?\d+:?\d*` at the start spans at least four characters |
| Selection.RemoveIdenticalsAsWrittenSubseq | Swectors/contract.py:185-214 | as written, the result is a subsequence of the input when nothing raises |
| Selection.RemoveIdenticalsAsWrittenOnTuples | Swectors/contract.py:193-213 | as written, a list of tuples comes back unchanged |
| Selection.RemoveIdenticalsDiscrepancy | Swectors/contract.py:201-213 | two tuples that differ only in SALDO numbers are both kept as written; the corrected version keeps only the first |
| Selection.RemoveIdenticalsFacts | Swectors/contract.py:185-214 | corrected: the result is a subsequence with pairwise different stripped keys, and it contains the first combination of every key |
| Validity.GetValidCombinations | Swectors/contract.py:63-128 | the result is the input filtered by `ValidCombination`, in order |
| Validity.CombinationVerdict | Swectors/contract.py:71-127 | decides `ValidCombination` for one combination |
| Validity.CollectMwes | Swectors/contract.py:73-74 | the MWE lexes of a combination |
| Validity.FindLonely | Swectors/contract.py:79-85 | whether some MWE lex has no partner with the same base |
| Validity.CountMatches | Swectors/contract.py:80-82 | the number of MWE lexes with the given base |
| Validity.WalkRefs | Swectors/contract.py:99-127 | decides the reference walk over the filled temporary map |
| Validity.CheckRefAt | Swectors/contract.py:103-127 | at a reference, either ends the walk with the verdict the walk gives, or lets it continue with the verdict unchanged |
| Validity.FillLeadingComplete | Swectors/contract.py:93-96 | filling the temporary map with a long enough combination leaves no `None` |
| Validity.ValidOnesExactly | Swectors/contract.py:70-128 | a combination is kept exactly when it is valid |
| Validity.ValidOnesMembers | Swectors/contract.py:70-128 | every kept combination is an input and valid |
| Validity.ValidOnesSubseq | Swectors/contract.py:70-128 | the kept combinations are in input order |
| Validity.NoMweKept | Swectors/contract.py:76-77 | a combination without MWE lexes is always kept |
| Validity.LonelyDropped | Swectors/contract.py:79-85 | a combination with an unpartnered MWE lex is dropped |
| Validity.RefWalkMeaning | Swectors/contract.py:99-127 | the walk accepts exactly when every reference checked before the first unparsable reference is satisfied |
| Validity.ValidCombinationMeaning | Swectors/contract.py:71-127 | valid means no lonely MWE lex, and every reference checked before the first unparsable one points to an existing key. That key must hold a lex without `:` and with the same base. |
| Contract.CheckMwe | Swectors/contract.py:420-658 | a non-`w` element gives `None`. With no MWE attribute the result is the flattened candidate lists. With nothing pending it is the initial slot values. `None` comes back exactly for a non-`w` element or more than 500000 combinations. Otherwise there are at most as many entries as words. |
| Contract.BuildLexLists | Swectors/contract.py:439-467 | fails exactly on a non-`w` element, else gives each word's candidate list |
| Contract.WordLexes | Swectors/contract.py:442-464 | the candidate list of one word, as the specification of that word's list defines it |
| Contract.HasMweAttr | Swectors/contract.py:472-473 | whether some attribute holds the separator other than at its start |
| Contract.Classify | Swectors/contract.py:482-533 | the initial slots and the pending lists, one pending list per `None` slot |
| Contract.ClassifyStep | Swectors/contract.py:485-533 | one word adds its entry to the slots, and its candidate list to the pending lists exactly when the entry is `None`, so the two stay in step |
| Contract.ClassifyWord | Swectors/contract.py:485-533 | the initial entry of one word |
| Contract.CombLength | Swectors/contract.py:547-550 | the product of the pending list lengths |
| Contract.FirstWithMwe | Swectors/contract.py:572-576 | the first combination, by index, whose first lex holds an inner separator; none only when no combination's first lex has one |
| Contract.ToOutcome | Swectors/contract.py:17-60 | a crash exactly when the filling specification fails, otherwise the output it defines, with at most one entry per key of the initial map |
| Contract.Narrow | Swectors/contract.py:584-658 | never `None`, and the output has at most one entry per key of the initial map, since no narrowing step adds a key |
| Contract.RemoveLeadingStep | Swectors/contract.py:244-285 | succeeds exactly when the peeling specification does, and then leaves its slots and combinations. Peeling keeps the number of keys. |
| Contract.SaveFirstStep | Swectors/contract.py:348-417 | succeeds exactly when the save-first specification does, and then leaves its slots and combinations. Saving the first MWE pops keys and never adds one. |
| Contract.UnresolvedCountSnoc | Swectors/contract.py:531-533 | appending a `None` slot adds one pending word |
| Contract.ProductExactly | Swectors/contract.py:563-565 | a tuple is a combination exactly when it picks one candidate from each pending list, in order |
| Contract.ProductSizeIsCount | Swectors/contract.py:547-565 | the number of combinations is the computed product |
| Contract.ProductCovers | Swectors/contract.py:563-567 | every combination has one entry per `None` slot |
| Contract.OneEntryPerWord | Swectors/contract.py:472-477 | when no attribute holds the separator, the early return gives exactly one entry per word: its text (or `noword`) if it has no candidates, else the `|`-join of its candidates |

## Left out

- XML parsing and the element tree: a sentence is a sequence of `Word` values (`isWord` for `w.tag == 'w'`, the mode's attribute, the text). The source also writes `'noword'` back into the element (line 447); the model uses the value but does not mutate the input.
- A word without the mode's attribute, which raises `KeyError` at line 450: every `Word` carries an attribute.
- The `print` calls and the `flatuslog.txt` log of lines 552-560: output and file I/O.
- `get_most_compact` (lines 314-345): it is never called.
- The rest of the repository (corpus readers, vector training, other scripts) is not part of this model.
- Regular expressions: newlines (which `.` does not match) and non-ASCII Unicode digits (which `\d` and `int()` accept) are not modelled. Strings are sequences of characters and digits are `0`-`9`.
- `int()`: surrounding whitespace and `_` digit separators are not accepted.
- Line 26 reads `savelex` in insertion order. Keys are inserted in ascending order and a popped key is never re-inserted, so the model uses key order throughout.
- CheckMwe: on the narrowing path (after the combinations are built) the contract bounds the output at one entry per word. It does not restate which combination the heuristics choose. It also inherits the corrected `remove_identicals` described under Narrow. That choice is specified member by member: `GetMaxMweWordsFacts`, `GetBestLeftmostFacts`, `LeadingPeeledSlots`, `FirstMweSavedFacts`, `MaterialisedFacts`.
- Narrow: promises only that it never returns `None` and that it bounds the output length, for the same reason.
- Narrow: runs the corrected `remove_identicals` (see Findings). Line 584 as written returns a list of tuples unchanged. So where two valid combinations differ only in SALDO numbers, the source narrows over both and the model over the first. There the chosen combination, and so the output or the crash, can differ from the source as written.
- Savelex.PositionMap.RemoveLeadingNonMwes, Savelex.PositionMap.SaveFirstMwe and Savelex.PositionMap.CombinationToOut: when `ok` is false (the source raises), the new slots are left unspecified. The exception ends `check_mwe`.
- Contract.RemoveLeadingStep and Contract.SaveFirstStep: state the kept number of keys only when the step succeeds, for the same reason.

## Findings

| source | as written | input that shows it | evidently intended | confidence | as-written member | corrected member |
|---|---|---|---|---|---|---|
| Swectors/contract.py:207-213 | each later tuple `c2` is replaced by its `' '.join` before `c2 in reduced_list` is asked. A string is never equal to a tuple, so nothing is removed from a list of tuples (the only call, line 584). | `[("a..nn.1",), ("a..nn.2",)]`: both keys strip to `a`, both tuples are kept | keep only the first of the combinations whose keys agree once the SALDO numbers are removed | not executed | Selection.RemoveIdenticalsDiscrepancy | Selection.RemoveIdenticalsFacts |
