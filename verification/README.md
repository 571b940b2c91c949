# ML-Pipeline core, modelled in Dafny

The pipeline has three command-line scripts, and this project models the logic they share:

- **`ML_classification.py`**
  - reads a tab-separated table of instances (first column the identifier, a `Class` column with the label) and scans its flag/value command line;
  - drops incomplete rows and splits off the "unknown" instances that the final models are applied to;
  - keeps the training classes, works out the positive and negative classes and the grid-search score, and picks the balanced class size;
  - names its outputs, partitions each balanced round, and makes the final positive/negative call from the median score and a threshold;
  - appends one line to `RESULTS.txt`, writing the header the first time.
- **`Feature_Selection.py`**
  - recodes the class column to 1/0;
  - optionally restricts the table to a feature list;
  - dispatches on the method name to random forest, chi-squared, L1 or Fisher's exact test;
  - for random forest and chi-squared, translates selector positions back to column positions;
  - for L1, applies the selector's mask;
  - for Fisher's exact test, counts a 2x2 table per feature;
  - builds the name of the output file.
- **`compare_classifiers.py`**
  - reads the `_scores.txt` files of several classification runs;
  - splits each run's positives into true positives and false negatives;
  - fills the matrix of pairwise true-positive overlaps;
  - lists the region counts a Venn diagram of up to five runs needs.

Each script is a set of pure functions over immutable data. pandas tables are `Frames.Frame`: row labels, column labels and one sequence of cells per column. The machine-learning libraries and the Fisher test are parameters:

- a feature ranking (`Ranking`);
- a chi-squared support list;
- an L1 mask;
- a `Fisher` p-value function.

Their numerical insides are not modelled. Python exceptions are the `Err` case of `Outcomes.Result`, named after the exception class and the name or key involved.

Modules:

| module | file | what it holds |
|---|---|---|
| `Outcomes` | `outcomes.dfy` | `Result`, `Option`, `Fault` |
| `Collections` | `collections.dfy` | `Distinct`, `list.index`, `list.remove`, set-of-elements facts |
| `Strings` | `strings.dfy` | `lower`, `strip`, `split`, `join`, `int()`/`str()` on integers |
| `CommandLine` | `commandline.dfy` | the `for i in range(1, len(sys.argv), 2)` flag loop |
| `Combos` | `combos.dfy` | subsets in Venn order and the literal region tables |
| `Frames` | `frames.dfy` | column access, selection and drop |
| `Comparator` | `comparator.dfy` | `compare_classifiers.py` |
| `FeatureSelection` | `feature_selection.dfy` | `Feature_Selection.py` |
| `Classification` | `classification.dfy` | the `main` of `ML_classification.py` |

## Model

| member | source | states |
|---|---|---|
| `CommandLine.Scan` | ML_classification.py:64-106 | The flag loop reads `argv` in flag/value pairs. When the argument count is odd and the lone last word is a flag the script handles, `sys.argv[i+1]` raises IndexError. |
| `CommandLine.ScanPreserves` | Feature_Selection.py:186-210 | Any property that every handled flag/value pair keeps holds of the settings the loop ends with. |
| `CommandLine.LastFlag` | ML_classification.py:64-106 | Finds the last flag position setting a variable. It is an even index followed by a value, and no later flag position sets it. |
| `CommandLine.ScanLastWins` | ML_classification.py:64-106 | When a flag is repeated, the last occurrence decides the variable. If the flag never occurs, the default stays. |
| `CommandLine.ScanFaults` | ML_classification.py:64-106 | When every handled flag's errors have a property, and so does the IndexError of a missing value, every error of the loop has it. |
| `Strings.Lower` | Feature_Selection.py:236-250 | Like `str.lower`: the same length, no upper-case letter left, and every other character kept in place. |
| `Strings.LowerIdempotent` | Feature_Selection.py:236-250 | Lower-casing twice gives the same result as once, so comparing `F.lower()` with a lower-case literal ignores case. |
| `Strings.TrimEnd` | compare_classifiers.py:69 | Like `str.rstrip()`: a prefix, all removed characters whitespace, and the kept end not whitespace. |
| `Strings.TrimStart` | compare_classifiers.py:69 | Like `str.lstrip()`: a suffix, all removed characters whitespace, and the kept start not whitespace. |
| `Strings.Strip` | compare_classifiers.py:69 | Like `str.strip()`: a slice of the input with only whitespace outside it, whose ends are not whitespace. |
| `Strings.StripSpaceAfter` | compare_classifiers.py:69 | Stripping a string with non-space ends and one trailing whitespace character gives the string back. |
| `Strings.Split` | compare_classifiers.py:56-58 | Like `str.split(sep)`: at least one piece, and no piece contains the separator. |
| `Strings.JoinSplit` | compare_classifiers.py:56-58 | Joining the pieces of a split with the same separator rebuilds the string. |
| `Strings.SplitJoin` | ML_classification.py:427-434 | Splitting a join of separator-free pieces on the separator gives the pieces back. |
| `Strings.LastSegment` | Feature_Selection.py:239 | Like `s.split("/")[-1]`: a suffix of `s` with no separator in it. It is all of `s`, or it is preceded by a separator. |
| `Strings.ParseIntToString` | Feature_Selection.py:239-242 | `int(str(n)) == n` for every integer, so the `str(N)` at the end of a save name records N. |
| `Strings.ParseInt` | ML_classification.py:86-96 | Like `int(v)` on a decimal string: an optional sign, then at least one digit, or else ValueError. A minus sign gives a value of at most 0; otherwise the value is at least 0. |
| `Collections.Position` | Feature_Selection.py:145 | The first position holding x, the entry `list.remove(x)` drops. |
| `Collections.RemoveFirst` | Feature_Selection.py:145 | `list.remove(x)` drops the first occurrence only: one entry shorter, the entries before and after the first x kept in order, and every other value still present. |
| `Collections.RemoveFirstAt` | Feature_Selection.py:145 | Entry k after `list.remove(x)` is entry k before it up to x's position, and entry k + 1 after it. |
| `Collections.PositionInPrefix` | ML_classification.py:150 | The first position of a value is the same in any prefix that holds it. |
| `Combos.VennOrderSpec` | compare_classifiers.py:109-178 | The Venn order lists every non-empty subset of the runs exactly once. Subsets appear by size, and lexicographically within a size. |
| `Combos.VennOrderCount` | compare_classifiers.py:144-178 | The Venn order of n runs has 2^n - 1 entries, e.g. the 31 areas of the five-run list. |
| `Combos.VennOrderSingletons` | compare_classifiers.py:109-178 | Entry c of the Venn order is the single run c, so every list starts with the runs' own areas. |
| `Combos.SourceTable` | compare_classifiers.py:109-178 | The area names written out for 2, 3, 4 and 5 runs (`area1`…, `n12`…, `n12345`) are exactly the Venn order of that many runs. |
| `Combos.OrderedListIsVennOrder` | compare_classifiers.py:144-178 | A list of 2^n - 1 subsets, each strictly before the next in size-then-lex order, is the Venn order. |
| `Comparator.Fields` | compare_classifiers.py:69 | `l.strip().split('\t')`: at least one tab-free field, and joining the fields with tabs gives the stripped line. |
| `Comparator.EmptyCallIsLost` | compare_classifiers.py:69-70 | A line whose sixth field is empty loses it to `strip`, so it has five fields and `line[5]` raises IndexError. |
| `Comparator.ScanFile` | compare_classifiers.py:67-77 | One scores file yields:<br>- its true positives: class and call both `pos`, in file order;<br>- its false negatives: class `pos`, call not `pos`;<br>- its count of positive rows.<br>A line with fewer than six fields raises IndexError. |
| `Comparator.SplitIsPartition` | compare_classifiers.py:70-77 | Each positive row lands in exactly one of TP and FN. Together, as multisets, they are the file's positives. |
| `Comparator.TruePositiveMembership` | compare_classifiers.py:70-75 | An identifier is listed as a true positive exactly when some row carries it with class and call both `pos`. |
| `Comparator.TallyRuns` | compare_classifiers.py:63-78 | The loop fails exactly when a file has no label or a short line. Each label's lists are its files' TP/FN lists, concatenated in order. `tp_total` counts the positive rows of the first file only. |
| `Comparator.CollectedOwnFile` | compare_classifiers.py:63-78 | With distinct labels, each run's list is exactly its own file's. |
| `Comparator.OverlapBounds` | compare_classifiers.py:93-98 | An off-diagonal overlap is symmetric and is at most either run's true-positive count. |
| `Comparator.OverlapMatrix` | compare_classifiers.py:89-99 | Cell (row B, column A) holds `len(tp[A])` on the diagonal and the size of the two sets' intersection below it. Cells above the diagonal stay 0, because `ids2` has lost A. |
| `Comparator.FillColumn` | compare_classifiers.py:94-99 | One inner loop fills column A for every label still in `ids2` and changes no other cell. |
| `Comparator.Intersection` | compare_classifiers.py:106-107 | The identifiers present in every argument list. |
| `Comparator.IntersectionBound` | compare_classifiers.py:106-107 | An intersection is no larger than any argument's set or list. |
| `Comparator.VennList` | compare_classifiers.py:109-182 | With 2 to 5 runs, the list holds 2^n - 1 counts, entry i being the intersection size of the runs in the i-th Venn subset. With any other count, `venn_diag_list` is unbound: NameError. |
| `Comparator.RegionCountMonotone` | compare_classifiers.py:109-178 | Intersecting more runs never gives a larger count. |
| `Comparator.RunLists` | compare_classifiers.py:106-178 | The lists the Venn counts are taken from: entry k is `tp[ids[k]]`, for the first n runs. |
| `Comparator.VennListMonotone` | compare_classifiers.py:109-178 | A Venn entry whose subset contains another entry's subset is at most that entry. |
| `Comparator.MatrixAgreesWithVenn` | compare_classifiers.py:89-113 | The matrix diagonal and off-diagonal cells equal the one- and two-run Venn counts. |
| `Comparator.Compare` | compare_classifiers.py:56-182 | The whole comparison succeeds exactly when every file is labelled and well formed and there are 2-5 runs. Then:<br>- each label's TP and FN lists are its files' lists, in order;<br>- cell (B, A) is `len(tp[A])` on the diagonal and the overlap of A and B below it, and 0 above it;<br>- the Venn list is the region counts of the runs' TP lists;<br>- each run's diagonal cell, its true-positive count and its Venn area agree. |
| `Comparator.VennListStartsWithAreas` | compare_classifiers.py:109-113 | A Venn list starts with the runs' own areas: entry c is the length of run c's list. |
| `Comparator.DiagonalsAgree` | compare_classifiers.py:93-113 | For every run c, the diagonal cell `df[c][c]`, the run's true-positive count and the Venn list's area c are equal. |
| `Frames.Column` | Feature_Selection.py:52 | `df[key]` is the first column with that label, or KeyError. |
| `Frames.SelectColumns` | Feature_Selection.py:228-233 | `df.loc[:, labels]` keeps every row and gives the named columns in the order asked. A missing label raises KeyError naming it. |
| `Frames.LabelsAt` | Feature_Selection.py:73 | `[df.columns[i] for i in positions]`, or IndexError past the last column. |
| `Frames.Drop` | Feature_Selection.py:51 | `df.drop(key, axis=1)` removes every column with that label; KeyError if absent. The result is exactly the other columns, each with its label and data, in their original order (`Others` lists those positions in ascending order). |
| `Frames.DropHead` | Feature_Selection.py:51-62 | When `Class` is the first column and appears only there, the dropped frame is columns 1.., so feature i is column i + 1. |
| `Frames.SetColumn` | Feature_Selection.py:225-226 | `df[key] = col` replaces that column and leaves the others alone. |
| `FeatureSelection.Translate` | Feature_Selection.py:67-71 | `fixed_index` is 0 followed by each kept feature index plus 1. |
| `FeatureSelection.SelectByIndex` | Feature_Selection.py:64-76 | Fails exactly when there is no `Class` column (KeyError) or an index points past the last feature. Otherwise the result is column 0 followed by each kept feature's column, with every row. |
| `FeatureSelection.DecisionTree` | Feature_Selection.py:42-78 | Selects by `indices[0:n]` of the ranking. For n >= 0, the result has min(n, #ranked) features after column 0. |
| `FeatureSelection.TreeKeepsTopFeatures` | Feature_Selection.py:59-76 | Given a ranking by importance, the kept features come in non-increasing importance. No dropped feature outranks a kept one, and min(n, #features) are kept. |
| `FeatureSelection.HeadOutranksRest` | Feature_Selection.py:59-76 | The first n entries of a ranking are in non-increasing importance, and no feature outside them outranks one inside. |
| `FeatureSelection.Chi2` | Feature_Selection.py:80-106 | Fails exactly when there is no `Class` column or a support index points past the last feature. Otherwise column 0 comes first, then the column of each support index plus 1. |
| `FeatureSelection.Chi2KeepsColumnOrder` | Feature_Selection.py:80-106 | An ascending support list keeps the selected columns in their original order. |
| `FeatureSelection.TrueAt` | Feature_Selection.py:125-132 | The mask's true positions, ascending, all of them. |
| `FeatureSelection.MaskedPicks` | Feature_Selection.py:130-132 | `feat_names[keep]` picks exactly the names at the mask's true positions. |
| `FeatureSelection.L1` | Feature_Selection.py:108-139 | Fails with:<br>- KeyError when there is no `Class` column;<br>- NameError (`estimator` unbound) for an unknown problem type;<br>- an error for a mask of the wrong width.<br>Otherwise the result is `Class` followed by the masked columns, under the masked names. |
| `FeatureSelection.L1IsIndexSelection` | Feature_Selection.py:108-139 | With `Class` first, L1's table equals the index selection of the mask's true positions, which is the random-forest and chi-squared path. |
| `FeatureSelection.Replace` | Feature_Selection.py:225-226 | `Series.replace(a, b)`: every `a` becomes `b`; other cells are unchanged. |
| `FeatureSelection.Recode` | Feature_Selection.py:224-226 | Recoding touches only the `Class` column, or raises KeyError without one. |
| `FeatureSelection.RecodeBinary` | Feature_Selection.py:224-226 | With two distinct labels and `neg` not 1, a cell becomes 1 exactly when it was `pos`, and 0 exactly when it was `neg`. |
| `FeatureSelection.RecodeDefaultsIsIdentity` | Feature_Selection.py:179-181 | With the default labels 1 and 0, recoding leaves the table unchanged. |
| `FeatureSelection.CountPairs` | Feature_Selection.py:149-165 | A group count is at most the row count, and is 0 exactly when no row has that (class, value) pair. This is the `except: 0` branch. |
| `FeatureSelection.Contingency` | Feature_Selection.py:150-167 | The table `[[TP, FN], [FP, TN]]`: each cell is at most the row count, and is 0 exactly when no row has its (class, value) pair. |
| `FeatureSelection.ContingencyCoversRows` | Feature_Selection.py:149-165 | With two class labels and 0/1 features, TP + FN + FP + TN is the number of rows. |
| `FeatureSelection.EnrichedAmong` | Feature_Selection.py:147-171 | The kept k-mers are among the k-mers, and every k-mer whose one-sided p-value is at most the cutoff is kept. |
| `FeatureSelection.EnrichedAmongIsMasked` | Feature_Selection.py:147-171 | The kept k-mers are the k-mers at the positions whose p-value passes the cutoff, in `kmers` order. |
| `FeatureSelection.FET` | Feature_Selection.py:141-174 | ValueError when the class column is missing. Otherwise the labels are the class column, then the enriched k-mers in column order; each column is the input's column of that label; and the features after the class are exactly the enriched ones. |
| `FeatureSelection.FetMembers` | Feature_Selection.py:144-171 | The loop over `kmers` keeps only enriched features, and every enriched feature other than the class column. |
| `FeatureSelection.FetCutoffMonotone` | Feature_Selection.py:169-170 | A feature kept at one cutoff is kept at every larger cutoff. |
| `FeatureSelection.Assign` | Feature_Selection.py:186-210 | One flag: unknown flags change nothing. `-n` and `-p` may raise ValueError, and only `-p` sets PARAMETER, to `float(v)`. |
| `FeatureSelection.ScanOptions` | Feature_Selection.py:186-210 | The flag loop only ever raises IndexError or ValueError, and a handled flag alone in last place raises one. |
| `FeatureSelection.ScanKeepsParameter` | Feature_Selection.py:186-210 | Without `-p`, PARAMETER keeps its initial value. |
| `FeatureSelection.ScanLabels` | Feature_Selection.py:206-207 | The positive label is the value after the last `-pos`, as a string, or the default. |
| `FeatureSelection.MethodOf` | Feature_Selection.py:236-250 | The method is chosen case-insensitively: `randomforest`/`rf`, `chi2`/`c2`, `l1`/`lasso`, or `fisher`/`fet`. |
| `FeatureSelection.MethodIgnoresCase` | Feature_Selection.py:236-250 | Lower-casing the name first chooses the same method. |
| `FeatureSelection.Stem` | Feature_Selection.py:239 | Every save name starts with a `/`-free tail of the DF path, then `_`, the method name and `_`. |
| `FeatureSelection.Dispatch` | Feature_Selection.py:236-250 | An unknown method raises NameError on `enrich`; a missing `-n` or `-p` raises NameError, and L1 without `-type` raises NameError on `TYPE`. With its inputs present, each branch succeeds exactly when its selector does and returns that selector's frame:<br>- `DecisionTree` on the ranking and N;<br>- `Chi2` on the support;<br>- `L1` on the mask and TYPE;<br>- `FET` with the user's `pos` and `neg`, as line 247 passes them.<br>The save name is the stem plus N (random forest, chi-squared), TYPE_p (L1) or p (Fisher). |
| `FeatureSelection.Prepare` | Feature_Selection.py:224-233 | Fails exactly when `Class` is missing or a listed feature is absent. The result's columns are all of them, or `Class` followed by the list. |
| `FeatureSelection.Select` | Feature_Selection.py:176-250 | No `-df` gives NameError, and a failed preparation gives its KeyError. No `-f` gives NameError on `F`. Otherwise the result is the dispatch of the method on the prepared frame, so on success the method is a known one and the save name starts with the stem. |
| `FeatureSelection.SaveNameRecordsN` | Feature_Selection.py:239-242 | For random forest and chi-squared, the save name's last `_` segment reads back as N. |
| `FeatureSelection.SaveNameIsLocal` | Feature_Selection.py:239-248 | The save name has no `/`, so the output is written in the working directory. |
| `FeatureSelection.DispatchNameIsLocal` | Feature_Selection.py:239-248 | Every branch's save name is free of `/` when its parts are. |
| `FeatureSelection.FisherAsWrittenCountsNothing` | Feature_Selection.py:224-226 | With text labels, every FET count after recoding is 0. |
| `FeatureSelection.FisherAsWrittenExample` | Feature_Selection.py:141-174 | A two-row table whose true 2x2 table is (1,0,0,1) is counted as (0,0,0,0). |
| `FeatureSelection.FisherCorrectedKeepsOriginalFeatures` | Feature_Selection.py:224-247 | Corrected: FET on the recoded table, given 1 and 0, keeps the same features in the same order as FET on the original table with the original labels. |
| `FeatureSelection.FisherAfterRecodeCountsOriginalTable` | Feature_Selection.py:141-174 | Counting against 1/0 after recoding gives the 2x2 table of the original labels. |
| `FeatureSelection.DefaultsAsWritten` | Feature_Selection.py:178-184 | As written, PARAMETER has no default, because `p = 0.05` is never used. |
| `FeatureSelection.FisherWithoutCutoffAsWritten` | Feature_Selection.py:245-248 | As written, a Fisher run without `-p` raises NameError on PARAMETER. |
| `FeatureSelection.FisherWithoutCutoffUsesDefault` | Feature_Selection.py:183 | With the default reaching PARAMETER, a Fisher run without `-p` succeeds and is saved under `_0.05`. |
| `Classification.Defaults` | ML_classification.py:50-53 | The defaults are:<br>- n 100;<br>- cv 10;<br>- n_jobs 1;<br>- POS 1;<br>- all classes;<br>- apply none;<br>- empty save and tag. |
| `Classification.WithInt` | ML_classification.py:85-106 | An integer flag stores `int(v)`, or raises ValueError. |
| `Classification.Assign` | ML_classification.py:64-106 | Handles one flag:<br>- unknown flags change nothing;<br>- `-cl_train` sets the list and POS to its first entry;<br>- only `-pos` and `-cl_train` change POS;<br>- `-apply` means all exactly when lower-cased it is `all`. |
| `Classification.Aliases` | ML_classification.py:85-106 | `-b` acts as `-n`, and `-p` acts as `-n_jobs`. |
| `Classification.Configure` | ML_classification.py:64-110 | With no arguments, the usage exit. Otherwise the settings are the flag loop's result from the defaults, and its only errors are IndexError and ValueError; a handled flag alone in last place raises one. |
| `Classification.PositiveFromLastFlag` | ML_classification.py:64-106 | POS comes from whichever of `-pos` and `-cl_train` comes last, or stays 1. |
| `Classification.Filter` | ML_classification.py:128-146 | A boolean-mask row selection keeps exactly the rows giving the wanted answer. |
| `Classification.FilterSplits` | ML_classification.py:133-146 | A mask and its negation split the rows, as multisets. |
| `Classification.Clean` | ML_classification.py:128-130 | Rows with a `?` anywhere are dropped; every other row is kept. |
| `Classification.Training` | ML_classification.py:144-146 | The training rows are all rows, or exactly those whose class is in `-cl_train`. |
| `Classification.UnknownsAsWritten` | ML_classification.py:133-142 | A class list with an `-apply` list raises AttributeError. |
| `Classification.Unknowns` | ML_classification.py:133-142 | Unknowns exist exactly when classes are listed and apply is set. With `all` they are the rows outside the training classes; otherwise the rows in the apply list. |
| `Classification.UnknownsAgree` | ML_classification.py:133-142 | Where the as-written code succeeds, it agrees with the corrected one. |
| `Classification.ApplyAllPartitions` | ML_classification.py:136-146 | With `-apply all`, training rows and unknowns split the rows, as multisets. |
| `Classification.ApplyListFails` | ML_classification.py:136-139 | A concrete command line with `-apply C` makes the as-written code fail where the corrected code selects the C rows. |
| `Classification.Unique` | ML_classification.py:150 | `unique()`: distinct values, the same values, and any two in the order of their first appearance. |
| `Classification.ToInt` | ML_classification.py:156-159 | `int(NEG)` turns a numeric string into that number and leaves any other string as it is. A float becomes a whole number cut toward zero: within 1 below a non-negative value, within 1 above a negative one. |
| `Classification.OtherClass` | ML_classification.py:151-160 | For two classes, the loop's NEG: the first class, unless it is POS and the second differs. With two different classes it is never POS. |
| `Classification.DeriveClasses` | ML_classification.py:148-171 | The score is `roc_auc` exactly for two classes, otherwise `f1_macro`. There is no NEG unless there are two classes; for a listed pair, NEG is the second. |
| `Classification.BinaryNegIsTheOtherClass` | ML_classification.py:149-160 | For two classes, NEG is the class that is not POS, after `int()`. |
| `Classification.Count` | ML_classification.py:180 | A class's group size is the number of rows of that class (its multiplicity among the classes), so it is positive exactly when the class occurs. |
| `Classification.Smallest` | ML_classification.py:180 | The smallest group size is attained and bounds all others. |
| `Classification.MinSize` | ML_classification.py:176-180 | `-min_size` wins. Otherwise the value is the smallest class size minus 1, or ValueError with no rows. |
| `Classification.SaveName` | ML_classification.py:184-188 | `-save` wins. Otherwise DF_ALG, with `_TAG` appended when there is a tag; no `-alg` gives NameError. |
| `Classification.SaveNameEndsInTag` | ML_classification.py:184-188 | The last `_` segment of a default save name is the tag, or the algorithm. |
| `Classification.Prepare` | ML_classification.py:110-188 | Fails exactly when:<br>- DF is unset (NameError);<br>- a `-cl_train` list meets an `-apply` list (AttributeError at line 136);<br>- no `-min_size` is given and no row is fit to train on;<br>- neither `-save` nor `-alg` is given.<br>The training rows are exactly the complete rows of the training classes. Unknowns exist exactly when classes are listed and `-apply all` is given, and they are exactly the complete rows of the other classes. |
| `Classification.GsScoreFlagIsIgnored` | ML_classification.py:74-75 | `-gs_score` never reaches the plan, since lines 148-171 overwrite it. |
| `Classification.RoundSplit` | ML_classification.py:262-267 | A round's chosen rows are exactly those with a balanced id; the others are the rows without one. |
| `Classification.RoundSplitPartitions` | ML_classification.py:262-267 | When the training rows are from the listed classes, chosen and not-selected rows split them. |
| `Classification.FinalCall` | ML_classification.py:388-391 | Without a median the class stays. Otherwise the call is POS exactly when median >= threshold, else NEG. |
| `Classification.FinalCallMonotone` | ML_classification.py:380-391 | Lowering the threshold keeps POS calls, and a threshold equal to the median calls POS. |
| `Classification.Predict` | ML_classification.py:388-391 | Every row's prediction is its final call. |
| `Classification.MetricFields` | ML_classification.py:423-426 | Each metric contributes its name, `_sd` and `_se`, in that order. |
| `Classification.HeaderFields` | ML_classification.py:421-426 | 45 columns: the nine run fields, then 12 metrics of three. |
| `Classification.HeaderFieldsAsWritten` | ML_classification.py:423-426 | As written, the header still has 45 columns, equal to the intended ones except column 12, `tAUCROC_se`. |
| `Classification.HeaderLineFields` | ML_classification.py:421-426 | The header written to a new RESULTS.txt is one line whose tab-separated fields are the as-written header fields. |
| `Classification.HeaderAsWrittenMisnamesAucSe` | ML_classification.py:423 | Column 12 of the header as written is not `AUCROC_se`. |
| `Classification.RowLine` | ML_classification.py:428-433 | The results line ends in a newline; with non-empty groups its body is the run values and the groups' values joined by tabs. |
| `Classification.RowMatchesHeader` | ML_classification.py:428-434 | With tab-free values, a results line splits on tabs into the run values and metric groups, as many fields as the header. |
| `Classification.UpdateResults` | ML_classification.py:421-434 | A binary run appends its line, after the header when the file is new, so the file ends with the line. Multiclass runs do not touch RESULTS.txt. |
| `Classification.HeaderWrittenOnce` | ML_classification.py:421-434 | Over any number of binary runs starting with no file, the header appears once, followed by the rows in order. |

## Left out

- Reading and writing files, printing, timestamps, plots (`venn`, matplotlib, `ML.fun.Plots`) and the usage message are left out. Input tables and scores files are parameters.
- The numerical parts of scikit-learn and scipy are left out: random-forest importances, chi-squared support, the L1 mask and the Fisher test. They are given to the model as an importance ranking, a support list, a mask and a `Fisher` function.
- `ML_functions` is not part of this model, and neither is what `ML_classification.py` hands to it: grid search, balancing, model building, performance, and the scores, means and standard deviations they return. These are floating point and randomised.
- `classes.sort()` (ML_classification.py:173) is left out: sorting a mixed array of labels depends on numpy's ordering of the values.
- The class column rename for `-class` (ML_classification.py:118-119) and SVM scaling are left out. The model assumes the label column is called `Class`.
- Missing values: only the `?` marker is modelled. pandas' own NaN detection while reading is left out.
- `Strings.ParseInt` models decimal integers with an optional sign. `int()`'s surrounding whitespace and digit underscores are left out.
- `Strings.Lower` lower-cases ASCII letters only.
- `Strings.Strip`, `Strings.TrimEnd`, `Strings.TrimStart` treat space, tab, newline, carriage return, vertical tab and form feed as whitespace. The other characters `str.strip()` removes, the separators 0x1c-0x1f and non-ASCII spaces, are left out.
- `Comparator.Compare`, `Comparator.OverlapMatrix`: these require distinct run labels. With repeated labels, pandas' `df[A][B]` addresses several columns, and that behaviour is not modelled.
- `Comparator.OverlapMatrix`: the chained assignment `df[A][B] = v` is modelled as writing cell (B, A). Copy-on-write pandas would leave the frame unchanged.
- `Comparator.ScanFile` takes each line already split into fields. `Comparator.Fields` models `l.strip().split('\t')` on the raw lines, and `Comparator.EmptyCallIsLost` shows a line those give to `ScanFile` as short.
- `Frames.Column`, `Frames.SelectColumns`: with a repeated label they return the first matching column, where pandas returns every match. `read_csv` renames repeated headers, so the tables read from files have distinct labels.
- `Classification.UpdateResults` takes the header line as a parameter; the script writes `Classification.HeaderLine`, built from the as-written fields.
- The comparator's own flags (`-scores`, `-ids`, `-save`, `-p`, `-n`), its TP/FN listing output and plotting are left out. `Compare` takes the files, labels and positive label directly.
- `FeatureSelection.DecisionTree`: ties in `np.argsort` are left to the given ranking.
- `FeatureSelection.L1`: the estimator's fit is a given mask. Only the shape of the result is stated, not which features a given C or alpha keeps.
- `FeatureSelection.FET`: the p-value is a parameter. The model states which features pass the cutoff, not the value of Fisher's test.
- `-list` output (Feature_Selection.py:253-262) is left out; it only decides which file is written.
- `Classification.Prepare`: the `-feat` cut (ML_classification.py:121-125) is not modelled. The input rows stand for the table after `df.loc[:, features]`, so a listed feature missing from the file (KeyError in the source) and a `?` in a column the list drops are outside the model.
- `Classification.Prepare` does not restate the derived classes; `Classification.DeriveClasses` states them.
- `Classification.FinalCallMonotone`: `round(np.mean(threshold_array), 2)` (ML_classification.py:380) is left out. The threshold is a parameter.
- The multiclass `_results.txt` output (ML_classification.py:336-369) and the detailed results file are left out; they only format floating-point scores.
- `n_jobs`, `-cm` and `-plots` are scanned but their effects are left out.

## Findings

| source | as written | input that shows it | evidently intended | confidence | as-written member | corrected member |
|---|---|---|---|---|---|---|
| Feature_Selection.py:247 | `FET(df, PARAMETER, pos, neg)` compares the class column against the user's `pos`/`neg`, after lines 225-226 recoded them to 1/0 | `-pos UUN -neg NNN`, rows (Class=UUN, k1=1) and (Class=NNN, k1=0): every count is 0 | compare against 1 and 0, giving TP=1, TN=1 | not executed | `FeatureSelection.FisherAsWrittenCountsNothing`, `FeatureSelection.FisherAsWrittenExample` | `FeatureSelection.FisherAfterRecodeCountsOriginalTable`, `FeatureSelection.FisherCorrectedKeepsOriginalFeatures` |
| Feature_Selection.py:183 | `p = 0.05` is set but never assigned to PARAMETER | `-f fisher` (or `-f l1`) without `-p`: NameError on PARAMETER | PARAMETER defaults to 0.05 | not executed | `FeatureSelection.FisherWithoutCutoffAsWritten` | `FeatureSelection.FisherWithoutCutoffUsesDefault` |
| ML_classification.py:136 | `apply.lower()` runs after `-apply` turned `apply` into a list | `-cl_train A,B -apply C`: AttributeError | take the rows whose class is in the apply list | not executed | `Classification.ApplyListFails`, `Classification.UnknownsAsWritten`, `Classification.Prepare` | `Classification.Unknowns` |
| ML_classification.py:423 | the header names column 12 `tAUCROC_se` | any first binary run in a fresh folder | `AUCROC_se`, as every other metric's `_se` column | not executed | `Classification.HeaderFieldsAsWritten`, `Classification.HeaderAsWrittenMisnamesAucSe` | `Classification.HeaderFields` |
