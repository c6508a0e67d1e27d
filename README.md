# DataMatching_ArticleData, modelled in Dafny

This repository compares three record-linkage approaches on article data: the
`dedupe` library, the Python Record Linkage Toolkit and a set of similarity
measures. Most of it is scripts that drive those libraries. The small pieces
of logic that are its own are what this project models:

- **The string normaliser** `pre_process_string` (src/Tools.py). Numbers
  become the empty string. Newline, `/` and `:` become a space. `-`, `'` and
  `,` are deleted. Runs of two or more spaces collapse to one. The text is
  stripped of whitespace, then of `"`, then of `'`. It is lower-cased and
  stripped of whitespace again, and an empty result becomes `None`. Module
  `Tools`, in `tools.dfy`.
- **The toolkit script's copy of that normaliser**, `preProcess`
  (src/PythonRecordLinkageToolkit.py). It is written out step by step
  from the same building blocks and proved equal to `pre_process_string` on every input. Module
  `RecordLinkageToolkit`, in `record_linkage_toolkit.dfy`.
- **Match evaluation**, `evaluate_match_index` (src/Evaluation.py). It counts
  the found id-pairs that are perfect matches (correct), the ones that are not
  (incorrect) and the perfect matches not found (missing). Module
  `Evaluation`, in `evaluation.dfy`.
- **Writing the dedupe results** (src/Dedupe.py, the part after matching).
  This has two passes:
  - The cluster loop records, for each clustered key, its cluster index and
    score. It splits each cluster's records by dataset and emits the cross
    product of the two sides as linked pairs.
  - The output pass prepends a cluster id and a score to every row of both
    input files. A row in no cluster gets a fresh id from a counter.

  This is imperative code, so it is modelled as methods with loops. Each
  method is proved equal to a specification function, and the properties are
  proved about those functions. Module `Dedupe`, in `dedupe.dfy`.

`wrappers.dfy` holds the `Option` type that the normaliser and the cluster
loop return.

Conventions of the model:
- The normaliser takes ASCII text, and `unidecode` is the identity on ASCII.
  Python's `str.isspace` on ASCII is the set HT, LF, VT, FF, CR, FS, GS, RS,
  US and space, and `IsSpace` is exactly that set.
- A dataset in Dedupe is a map from record key to the record's `unique_id`.
  An input file is the sequence of its rows' keys. The cluster score is a type
  parameter that is only carried along.

## Model

| member | source | states |
|---|---|---|
| Tools.Substitute | src/Tools.py:15-20 | `re.sub(c, rep, ·)` with a one-character pattern: a replacement of at most one character never lengthens the text, and `c` is gone unless `rep` holds it |
| Tools.Rewrite | src/Tools.py:15-20 | the six substitutions in source order never lengthen the text and leave no `:` |
| Tools.SubstituteMember | src/Tools.py:15-20 | after `re.sub(c, rep, ·)`, `c` is gone unless `rep` brings it back, and every other character stays |
| Tools.SubstituteAppend | src/Tools.py:15-20 | a single-character substitution works piece by piece over a concatenation |
| Tools.RewriteCharacters | src/Tools.py:15-20 | after the six substitutions none of newline, `-`, `/`, `'`, `,`, `:` is left; every character of the result was in the input or is a space; every other input character survives |
| Tools.RewriteEachMember | src/Tools.py:15-20 | in the per-character reading, a character of the result is a space or an input character that is none of the six, and every input character that is none of the six survives |
| Tools.RewriteIsPerCharacter | src/Tools.py:15-20 | the six chained substitutions equal rewriting each character on its own: separators to a space, deleted characters to nothing |
| Tools.RewriteAppend | src/Tools.py:15-20 | the substitutions distribute over concatenation |
| Tools.RewriteSingle | src/Tools.py:15-20 | on a single character the substitutions give that character's own rewrite |
| Tools.RewriteUntouched | src/Tools.py:15-20 | text with none of the six characters passes the substitutions unchanged |
| Tools.CollapseSpaces | src/Tools.py:21 | `re.sub('  +', ' ', ·)` leaves no two adjacent spaces, is no longer than its input, keeps the first character, adds no character and keeps every non-space character |
| Tools.CollapseKeepsNonSpaces | src/Tools.py:21 | collapsing removes only spaces: the non-space characters are the same, in the same order |
| Tools.CollapseFixesSingleSpaced | src/Tools.py:21 | a string with no double space is left unchanged |
| Tools.CollapseIdempotent | src/Tools.py:21 | collapsing twice gives the same as collapsing once |
| Tools.Spaces | src/Tools.py:21 | a run of `n` spaces, the text the pattern `  +` matches when `n` is at least 2 |
| Tools.CollapseAppend | src/Tools.py:21 | text not ending in a space collapses independently of what follows it |
| Tools.CollapseLeadingRun | src/Tools.py:21 | a leading run of one or more spaces before text not starting with a space becomes exactly one space |
| Tools.CollapseRun | src/Tools.py:21 | a run of one or more spaces between text not ending and text not starting with a space becomes exactly one space, and each side collapses on its own |
| Tools.Strip | src/Tools.py:22 | `str.strip(chars)` leaves neither end strippable, is no longer than its input, adds no character and keeps every character that is not stripped |
| Tools.StripIsSlice | src/Tools.py:22 | the stripped string is a contiguous slice of the input with only strippable characters before and after it |
| Tools.StripKeepsKeptEnds | src/Tools.py:22 | a non-empty string whose two ends are not strippable is returned unchanged |
| Tools.StripKeepsSingleSpacing | src/Tools.py:22 | stripping keeps a string free of double spaces |
| Tools.LowerChar | src/Tools.py:22 | ASCII `lower()` of one character: the result is never upper-case, non-letters are unchanged, and `A`..`Z` map in order onto `a`..`z` |
| Tools.Lower | src/Tools.py:22 | `lower()` keeps the length and lower-cases every position independently |
| Tools.LowerProperties | src/Tools.py:22 | lower-casing leaves no upper-case letter, introduces none of the rewritten characters and keeps a string free of double spaces |
| Tools.LowerCharKeepsNonWhitespace | src/Tools.py:22 | lower-casing never turns a non-whitespace character into whitespace |
| Tools.LowerAppend | src/Tools.py:22 | lower-casing distributes over concatenation |
| Tools.Trim | src/Tools.py:22 | the strip/lower chain leaves no whitespace at either end and no upper-case letter, introduces no rewritten character and keeps a string free of double spaces |
| Tools.TrimKeeps | src/Tools.py:22 | a character that is neither whitespace nor a quote survives the strip chain, lower-cased |
| Tools.TrimPlain | src/Tools.py:22 | a string whose two ends are not whitespace or quotes only gets lower-cased |
| Tools.Cleaned | src/Tools.py:14-22 | the string before the `None` test has no rewritten character, no upper-case letter, no double space and no whitespace at either end |
| Tools.CleanedKeeps | src/Tools.py:14-22 | any character that is not whitespace, a quote or a rewritten character survives, lower-cased |
| Tools.InputText | src/Tools.py:11-12 | an int or float value (NaN included) is replaced by the empty string (text passes through unchanged by the definition itself, which the contract does not repeat) |
| Tools.PreProcessString | src/Tools.py:5-25 | a number gives `None`; a `Some` result is non-empty, holds none of newline, `-`, `/`, `'`, `,`, `:` and no upper-case letter, has no double space, and has no whitespace at either end |
| Tools.PreProcessOfCleaned | src/Tools.py:23-25 | a non-empty cleaned string is returned as it is |
| Tools.BlankInputIsNone | src/Tools.py:11-24 | text made only of whitespace and rewritten characters gives `None` |
| Tools.KeptCharacterSurvives | src/Tools.py:14-25 | text holding any character that the pipeline does not drop gives `Some`, and the result contains that character lower-cased |
| Tools.SeparatorBecomesSpace | src/Tools.py:15-22 | two plain words joined by newline, `/` or `:` normalise to the lower-cased words joined by one space |
| Tools.CleanedSpaceRun | src/Tools.py:15-22 | two plain words separated by any run of spaces come out of the substitutions, the collapse and the strip/lower chain as the lower-cased words joined by one space |
| Tools.SpaceRunBecomesSpace | src/Tools.py:5-25 | two plain words separated by any run of spaces normalise to `Some` of the lower-cased words joined by one space |
| Tools.DeletedCharacterJoins | src/Tools.py:15-22 | two plain words joined by `-`, `'` or `,` normalise to the lower-cased words run together |
| Tools.HyphenExample | src/Tools.py:16 | `a-b` normalises to `ab` |
| Tools.SlashExample | src/Tools.py:17 | `a/b` normalises to `a b` |
| Tools.NotIdempotent | src/Tools.py:22 | the normaliser is not idempotent: `" "x` normalises to `"x`, which normalises to `x` |
| RecordLinkageToolkit.PreProcess | src/PythonRecordLinkageToolkit.py:17-37 | `preProcess` equals `pre_process_string` on every input, so it has all of that function's guarantees: a number gives `None`; a `Some` result is non-empty, free of the six rewritten characters and of upper-case letters, has no double space and no whitespace at either end |
| RecordLinkageToolkit.BlankColumnIsNone | src/PythonRecordLinkageToolkit.py:23-36 | a column made only of whitespace and rewritten characters gives `None` |
| Evaluation.EvaluateMatchIndex | src/Evaluation.py:21-38 | the perfect total is the size of the perfect set; correct is the size of the intersection; incorrect is the number of found pairs that are not perfect; missing is the number of perfect pairs that were not found |
| Evaluation.FoundPairsAreCorrectOrIncorrect | src/Evaluation.py:29-34 | correct plus incorrect is the number of found pairs |
| Evaluation.PerfectPairsAreCorrectOrMissing | src/Evaluation.py:29-35 | correct plus missing is the perfect total |
| Evaluation.CountsAreBounded | src/Evaluation.py:29-35 | no count is negative, and correct is at most both set sizes |
| Evaluation.PerfectTotalIgnoresFoundPairs | src/Evaluation.py:32 | the perfect total does not depend on the found pairs |
| Evaluation.PerfectFindIsExact | src/Evaluation.py:29-36 | evaluating the perfect set against itself gives zero incorrect and zero missing |
| Evaluation.ExactOnlyForPerfectFind | src/Evaluation.py:29-36 | zero incorrect and zero missing happen only when the found set is the perfect set |
| Evaluation.EmptyFindMissesEverything | src/Evaluation.py:29-36 | an empty found set gives zero correct, zero incorrect, and every perfect pair missing |
| Evaluation.CorrectIsSymmetric | src/Evaluation.py:29 | the correct count is symmetric in the two sets |
| Dedupe.CollectCluster | src/Dedupe.py:163-171 | the loop over one cluster's keys records each key with the cluster's index and score, and builds the data_1 side and the data_2 side of the cluster |
| Dedupe.AppendCrossPairs | src/Dedupe.py:174-176 | the nested loops append the cross product of the two sides, data_1 id outermost |
| Dedupe.LinkClusters | src/Dedupe.py:158-176 | after the cluster loop, `record_pairs` holds the clusters' contributions in cluster order, `cluster_membership` holds every key's last cluster, and `cluster_id` is the last cluster index, or `None` when there is no cluster |
| Dedupe.MatchData1Members | src/Dedupe.py:165-169 | an id is on the data_1 side exactly when a key of the cluster that data_1 holds carries it |
| Dedupe.MatchData2Members | src/Dedupe.py:165-171 | an id is on the data_2 side exactly when a key of the cluster that data_2 holds and data_1 does not hold carries it |
| Dedupe.SidesCount | src/Dedupe.py:165-171 | each key adds at most one id to one side; when every key is in one of the datasets, the sides together have one id per key |
| Dedupe.PairsWithIndex | src/Dedupe.py:175-176 | the inner loop pairs one data_1 id with each data_2 id in order |
| Dedupe.CrossPairsLength | src/Dedupe.py:174-176 | the cross product has `|match_data_1| * |match_data_2|` pairs |
| Dedupe.CrossPairsAt | src/Dedupe.py:174-176 | pair `i * |match_data_2| + j` joins the `i`-th data_1 id with the `j`-th data_2 id |
| Dedupe.PairsWithMembers | src/Dedupe.py:175-176 | every pair of the inner loop has the given data_1 id first and a data_2 id second |
| Dedupe.CrossPairMembers | src/Dedupe.py:174-176 | every pair joins a member of the data_1 side with a member of the data_2 side, with the cluster's score |
| Dedupe.ClusterPairsCount | src/Dedupe.py:173-176 | a cluster with members on both sides adds exactly `|match_data_1| * |match_data_2|` pairs; any other cluster adds none |
| Dedupe.ClusterPairsIsCrossProduct | src/Dedupe.py:173-176 | the length guard never changes the result, because a cross product with an empty side is empty |
| Dedupe.AllPairsAppend | src/Dedupe.py:162-176 | the pairs of a list of clusters are those of its first part followed by those of the rest: pairs come out in cluster order |
| Dedupe.PairsComeFromOneCluster | src/Dedupe.py:162-176 | every emitted pair has a data_1 id of some cluster first, a data_2 id of the same cluster second, and that cluster's score |
| Dedupe.RecordAllEntries | src/Dedupe.py:165-166 | recording a cluster's keys adds exactly those keys, each mapped to the cluster's details, and leaves the other keys alone |
| Dedupe.MembershipDomain | src/Dedupe.py:162-166 | a key has an entry in `cluster_membership` exactly when some cluster lists it |
| Dedupe.MembershipIsLastCluster | src/Dedupe.py:162-166 | a key listed by several clusters ends up with the index and score of the last one |
| Dedupe.MembershipIndexBound | src/Dedupe.py:162-166 | every cluster index in `cluster_membership` is an index of `linked_records` |
| Dedupe.AsWrittenReusesClusterZero | src/Dedupe.py:178-181 | with exactly one cluster, the counter as written starts at that cluster's own index 0 |
| Dedupe.InitialFreshIdAsWritten | src/Dedupe.py:178-181 | the counter as written: 0 when there is no cluster or when the last cluster index is 0 (the falsy-id case), otherwise above the last cluster index |
| Dedupe.InitialFreshId | src/Dedupe.py:178-181 | the corrected counter starts above the last cluster index, or at 0 when there is no cluster |
| Dedupe.CounterStart | src/Dedupe.py:178-181 | after the cluster loop the intended counter starts at the number of clusters (one past the last index); the counter as written starts there too except with exactly one cluster, where it starts at 0 |
| Dedupe.InitialFreshIdAboveClusters | src/Dedupe.py:178-181 | the corrected counter starts above every cluster index in `cluster_membership` |
| Dedupe.OutputRows | src/Dedupe.py:188-213 | one output row per input row |
| Dedupe.OutputRowsAt | src/Dedupe.py:202-212 | row `k` is written with its cluster's details, or with the counter's start plus the number of unclustered rows before it and no score |
| Dedupe.RowFor | src/Dedupe.py:203-209 | a written row keeps its file number and key; it has a score exactly when its key is in a cluster, then carries that cluster's id, and otherwise carries the current counter |
| Dedupe.WriteFileRows | src/Dedupe.py:202-213 | the loop over one file's rows extends the written rows and the counter exactly as the specification of the output pass says |
| Dedupe.AssignClusterIds | src/Dedupe.py:188-213 | the loop over both files writes the specified rows, and the counter ends at its start plus the number of unclustered rows |
| Dedupe.UnclusteredGrows | src/Dedupe.py:204-206 | the count of unclustered rows never decreases, and an unclustered row raises it |
| Dedupe.FreshIdsIncrease | src/Dedupe.py:204-207 | across both files in order, unclustered rows get strictly increasing ids and no score |
| Dedupe.FreshIdsInRange | src/Dedupe.py:204-206 | every fresh id lies between the counter's start and its final value |
| Dedupe.FreshIdsConsecutive | src/Dedupe.py:204-206 | every id from the counter's start up to its final value goes to some unclustered row: the fresh ids are consecutive |
| Dedupe.ClusteredRowsKeepDetails | src/Dedupe.py:208-209 | a clustered row is written with its cluster's id and score |
| Dedupe.UnscoredRowsAreUnclustered | src/Dedupe.py:203-209 | a row is written without a score exactly when it belongs to no cluster |
| Dedupe.FreshIdsAreUnique | src/Dedupe.py:204-212 | when the counter starts above every cluster index, an unclustered row shares its id with no other row |
| Dedupe.AsWrittenCollision | src/Dedupe.py:178-207 | with the counter as written, one cluster listing key `a` and a file with rows `a` and `b` give both rows cluster id 0 |
| Dedupe.WriteResults | src/Dedupe.py:158-213 | the cluster loop followed by the output pass, with the corrected counter: the specified pairs and rows, and every unclustered row's id is unique |

## Left out

- `unidecode` (src/Tools.py:14 and src/PythonRecordLinkageToolkit.py:26) is a foreign transliteration table. The normaliser takes ASCII text only, where it is the identity.
- Python's `str.isspace` beyond ASCII is not modelled, since only ASCII text reaches the normaliser.
- Numeric inputs are a single `Int` and a single `Float` case. Their values play no part, because both become the empty string. Any value that is neither `str`, `int` nor `float` raises in `unidecode` (src/Tools.py:14); that error path is not modelled, and `Cell` cannot represent such a value. Examples are `None`, which `csv.DictReader` gives for the missing fields of a short row; a list, which it gives under the key `None` for the surplus fields of a long row (src/Dedupe.py:62-64 normalises every field); and `bool`, an `int` subclass whose `type` is not `int`.
- Evaluation.EvaluateMatchIndex: the two pandas MultiIndexes are taken as sets of id-pairs. An index with repeated pairs, where `.size` counts duplicates, is not modelled.
- `evaluate_match_file` (src/Evaluation.py:6-18) is file existence plus CSV reading. `print_evaluate_result` (src/Evaluation.py:41-53) is printing. Both are I/O.
- Dedupe.LinkClusters: the score of a pair is carried as the cluster's score. Its `"{:.6f}"` text formatting (src/Dedupe.py:176) is float formatting and is not modelled.
- Dedupe.AssignClusterIds: the CSV reading and writing and the header handling (src/Dedupe.py:183-200) are I/O. A row's other columns are not modelled: a row is stood for by its key.
- The key of a row, `filename + str(row_id)` (src/Dedupe.py:203), is taken as given in each file's key sequence.
- Writing the mapping file (src/Dedupe.py:215-220) is I/O over `record_pairs`, and `record_pairs` is modelled.
- The rest of src/Dedupe.py (reading the data, the `dedupe` library's training and matching) consists of calls into libraries. `linked_records`, `data_1` and `data_2` are inputs.
- src/PythonRecordLinkageToolkit.py:8 ends in `\'`, which escapes the closing quote, so the script does not parse as written. Only the text of `preProcess` is modelled.

## Findings

| source | as written | input that shows it | evidently intended | confidence | as-written member | corrected member |
|---|---|---|---|---|---|---|
| src/Dedupe.py:178 | `if cluster_id:` treats the last cluster index 0 as "no cluster", so the fresh-id counter starts at 0 | `linked_records` holds exactly one cluster, listing key `a`, and the first file has rows `a` and `b`; both rows are written with cluster id 0 | `if cluster_id is not None:`, so the counter starts at 1, above every cluster index | not executed | Dedupe.AsWrittenCollision | Dedupe.WriteResults |
