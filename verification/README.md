# Verified models of the log templating library

This project models, in Dafny, the algorithmic code of the library under `flt/` and
proves what that code is for. Every file holds one module; `dafny verify dfyconfig.toml`
checks them all.

* **Online templater.** Lines are cut into words (`WordIterator.dfy`), routed by their
  number of words and by their first or last word (`OnlineTemplater.dfy`,
  `TokenLayer.dfy`, `Account.dfy`) and learned by the most similar template
  (`TemplLayer.dfy`, `TemplHistory.dfy`, `TemplSequence.dfy`, `Similarity.dfy`). A template
  (`TemplNode.dfy`, `TemplString.dfy`) forgets its lines and keeps a table of the words seen
  at its wildcards (`ParamTable.dfy`, `TableSequence.dfy`). Splitting has only that table to
  go by (`Splitting.dfy`, `BijectionSearch.dfy`, `TemplSplit.dfy`); what it comes to is
  stated for the forgotten lines (`Correction.dfy`, `Output.dfy`, `LineGroup.dfy`,
  `SharedLines.dfy`). Each template carries the forgotten lines as a ghost history. The main
  results are that the table always is what this history looks like at the tracked
  wildcards, that what is written after a split is a function of the lines alone, in which
  exactly the wildcards are replaced that these have in a bijection, and that every line
  fed in is then matched by a template that is written, and every written template matches
  a line. Whenever templates are written, they match all lines of templates that were not
  split and all lines known at the last split; which of the lines that came later a split
  template still matches, `Splitting.SplitMatchesExactly` says. A line may also be matched
  by what is written for other lines, which may have wildcards left where its own have
  been replaced (`SharedLines.OtherKeepsWildcard`).
* **Longest common subsequence** of any number of words (`CommonSubsequence.dfy`,
  `LongestCommonSubsequence.dfy`) on a flat mixed-radix table (`StringTable.dfy`).
* **Edit distances** (`Levenshtein.dfy`, `LevenshteinDistance.dfy`, `LevenshteinPath.dfy`,
  `WeightedEditDistance.dfy`): one row, full matrix, trace-back, and the weighted sum.
* **Distance classifier** (`DistanceClassifier.dfy`), the loop that moves a cutoff to the
  middle between two means.
* **Clustering** (`Agglomerative.dfy`) and **caches** (`HashCombine.dfy`, `Caches.dfy`,
  `SynchronizedCache.dfy`), the latter as interleaved steps of any number of threads.

Objects that the library updates are classes here, loops are loops, and methods are
proved against functions and predicates whose properties the lemmas state.

Besides what the interfaces themselves demand (a sorted range to classify, at least one
word for a common subsequence, keys compared by an equivalence that their hash agrees
with), three things are asked of callers:

* A line that has the wildcard `<*>` as a word must not found a template; it may join
  one. `ParamTables.TableIsHistoryIffFounded` shows that the table is the history in
  every continuation exactly for founding lines without it, and
  `Splitting.SplitLosesFounder` gives a founding line with it that is matched by no
  template after a split. Which lines join is a function of the lines alone
  (`TemplSequences.TemplsAfter`), so this can be asked of a sequence of lines
  (`LineGroups.AllAdmitted`). It holds if no line has the wildcard as a word
  (`LineGroups.NoWildcardsAdmitted`). The command line tool filters lines before
  templating, and one of its filters rewrites everything in pointed brackets
  (`flt/parameter_filter/common_regex_filters.hpp:13-15`,
  `tools/online_templater.cpp:28,46,55`); the filters are not part of this model.
* A template keeps more than the threshold's share of literal words for thresholds below
  one if no line it was learned from has the wildcard as a word.
  `Similarities.FirstLineIsLiteral` and `Similarities.SimilarKeepsLiteralsIffPlain` show
  both to be necessary: two wildcards count as equal words.
* In a clustering, whoever is reached reaches back, which symmetric edges ensure; a comment
  of the source asks for those (`flt/clustering/agglomerative.hpp:77`).
  `Agglomerative.ClusteringExistsIffMutual` shows that nothing less will do.

A split asks nothing of lines to match each of them, but a wildcard put back as a word
matches everything again. So a line is matched by only one new template exactly if no
other line can be mistaken for it at the restored positions (`Splitting.SplitCoversOnce`),
and the new templates have lost exactly the restored wildcards if and only if no line has
the wildcard as a word at a restored position (`Splitting.SplitClearsIff`); lines without
it as a word always meet both. `Splitting.SplitMatchesTwice` is a table for which both fail.

Where the code and the project's README differ, the model follows the code: the
threshold is described as a largest share of parameters, while a line joins a template
if the share of equal words exceeds it. "Matches" means word by word: a template keeps
the separators of its last line only, and the check for trailing separators compares
two iterators that are both at the end.

## Model

| member | source | states |
|---|---|---|
| WordIterators.RenderParse | flt/string/word_iterator.hpp:66-118 | leading separators and all words with the separators behind them make up the string again, and are well formed |
| WordIterators.ParseRender | flt/string/word_iterator.hpp:66-118 | well-formed words and separators, written out, are read back as exactly these |
| WordIterators.ParseSplits | flt/string/word_iterator.hpp:180-201 | words are not empty and have none of the separating characters, which are named one by one, and what is between words has no others |
| WordIterators.ScanWhile | flt/string/word_iterator.hpp:180-201 | the scanning loops stop at the first character of the other kind |
| WordIterators.BlanksFirst | flt/string/word_iterator.hpp:166-177 | skipping blanks first and all separators next, as the two nested constructors do, ends where skipping all separators ends |
| WordIterators.WordIterator.Special | flt/string/word_iterator.hpp:166-177 | a new iterator stands at the first word of the string |
| WordIterators.WordIterator.Plain | flt/string/word_iterator.hpp:30-40 | the same for words separated by blanks only |
| WordIterators.WordIterator.Advance | flt/string/word_iterator.hpp:66-79 | moves to the next word of the list of words and always forward in the string |
| WordIterators.WordIterator.PrevSeps | flt/string/word_iterator.hpp:99-103 | the separators between the last word and this one |
| WordIterators.WordIterator.NextSeps | flt/string/word_iterator.hpp:105-118 | the separators behind the current word, nothing at the end |
| WordIterators.CountTokens | flt/templating/online_templater.hpp:39-43 | counts the words of a line |
| TemplStrings.RetokenRoundTrip | flt/templating/online_templater.hpp:86-116 | a string built from words and the separators of another one is read back as these words |
| TemplStrings.MergedWords | flt/templating/online_templater.hpp:86-116 | the string that update builds has exactly the generalised words, so the number of words of a template never changes |
| TemplStrings.MergedSeparators | flt/templating/online_templater.hpp:86-116 | between these words it has the separators of the line |
| ParamTables.LeastGeneral | flt/templating/online_templater.hpp:86-116 | the generalisation of lines matches them all, and whatever matches them all is no more specific |
| ParamTables.MergeGeneralises | flt/templating/online_templater.hpp:86-116 | generalising with one more line gives the least general template of all lines, whatever words they have |
| ParamTables.GrownIsProjection | flt/templating/online_templater.hpp:349-363 | widening the table by new wildcards and adding the line keeps it the projection of all lines onto the wildcards |
| ParamTables.GrownTable | flt/templating/online_templater.hpp:349-363 | before it is reduced, the table is the projection of the longer history onto the tracked wildcards |
| ParamTables.DropIsProjection | flt/templating/online_templater.hpp:396-412 | dropping positions leaves the projection onto the others |
| ParamTables.ReducedIsUnique | flt/templating/online_templater.hpp:368-413 | which positions a too large table gives up, and what is left, is determined: groups of most distinct words go until the table fits |
| TableSequences.ReducedGivesUpLeast | flt/templating/online_templater.hpp:368-413 | a table of at most 500 entries gives up nothing; a larger one gives up the positions with most different words, and no fewer would do |
| TableSequences.ReachedUnique | flt/templating/online_templater.hpp:73-118 | template, table and what was given up are a function of the lines |
| TableSequences.FewAreKept | flt/templating/online_templater.hpp:365-413 | as long as the lines differ in at most 500 ways at the wildcards, nothing is given up and the table has all of them |
| TableSequences.TableFits | flt/templating/online_templater.hpp:365-366 | a table never has more than 500 entries |
| ParamTables.LearnStep | flt/templating/online_templater.hpp:73-118 | one update keeps a template the least general one of its history and its table the projection of that history |
| ParamTables.FoundedIsLearned | flt/templating/online_templater.hpp:73-118 | whatever lines follow a founding line without the wildcard as a word, the template is the least general one and the table the projection of all lines |
| ParamTables.TableIsHistoryIffFounded | flt/templating/online_templater.hpp:91-109 | the table is the projection of all lines in every continuation exactly if the founding line does not have the wildcard as a word |
| ParamTables.GroupPositions | flt/templating/online_templater.hpp:368-394 | groups exactly the positions of the table by their number of distinct words |
| ParamTables.NextCut | flt/templating/online_templater.hpp:396-412 | removing the largest group leaves the groups below that size, and gives up exactly the positions of that size |
| ParamTables.GroupsLeft | flt/templating/online_templater.hpp:396-399 | while the table is too large there is a group left to remove |
| ParamTables.PigeonholeBijection | flt/templating/online_templater.hpp:196-236 | equal numbers of distinct words and a functional pairing make a bijection |
| TemplNodes.TemplNode.constructor | flt/templating/online_templater.hpp:55-64 | a template from a string, with its number of words |
| TemplNodes.FirstLineKnown | flt/templating/online_templater.hpp:475-477 | a line taken as a template is what one line has to say |
| TemplNodes.CollectIsProjection | flt/templating/online_templater.hpp:86-115 | what the loop over the words collects are the projections of template and line onto new and tracked wildcards |
| TemplNodes.TemplNode.GeneraliseWith | flt/templating/online_templater.hpp:73-116 | the loop of update gives the merged string, the two table entries and the stored parameters |
| TemplNodes.TemplNode.ReduceParamTable | flt/templating/online_templater.hpp:368-413 | ends within the limit, having given up exactly the positions with most distinct words that had to go |
| TemplNodes.TemplNode.UpdateParamTable | flt/templating/online_templater.hpp:349-366 | the table grows as specified and is reduced exactly if it has become too large |
| TemplNodes.TemplNode.Update | flt/templating/online_templater.hpp:73-118 | learning any line keeps the template the least general one of the longer history, its table the projection of that history, and the stored parameters what was seen |
| TemplNodes.UpdateKeepsKnowing | flt/templating/online_templater.hpp:73-118 | the step behind Update, about the fields as values |
| TemplNodes.StoreIsSeen | flt/templating/online_templater.hpp:92-109 | with storing on, the parameters at a tracked wildcard are exactly the words the history has there |
| TemplNodes.KnownLinesMatch | flt/templating/online_templater.hpp:73-118 | a template matches all lines it was learned from |
| TemplNodes.TemplNode.GetSimilarity | flt/templating/online_templater.hpp:120-148 | the share of equal words less the threshold, or zero where a difference of separators or keys rules the template out |
| BijectionSearch.Inspect | flt/templating/online_templater.hpp:179-187 | the distinct words of one position, and whether all could be parameters |
| BijectionSearch.ListPositions | flt/templating/online_templater.hpp:171-194 | every position is listed once, under its number of distinct words and its kind |
| BijectionSearch.DeterminesByLoop | flt/templating/online_templater.hpp:211-226 | the loop with the map of pairs decides whether one position determines the other, and whether both are always equal |
| BijectionSearch.FindWordBijections | flt/templating/online_templater.hpp:196-245 | step 2a finds exactly the positions with a bijective, not merely equal, partner in their group |
| BijectionSearch.FindParamBijections | flt/templating/online_templater.hpp:247-276 | step 2b adds exactly the parameter positions in bijection with a position found in step 2a |
| BijectionSearch.FindRestored | flt/templating/online_templater.hpp:171-279 | steps 1 and 2 together find exactly the positions to restore |
| Corrections.RestoredIsPutBack | flt/templating/online_templater.hpp:196-279 | exactly the positions are restored that the lines put in a bijection, sizes of groups in unsigned arithmetic included, without naming table or groups |
| Corrections.PutBackIsRight | flt/templating/online_templater.hpp:196-279 | without wrap-around: a wildcard that has seen words is restored exactly if it tells the lines apart as another one, is always equal to none with as many words, and these are at most the number of words less two; one that has seen parameters only, exactly if it is paired with one of those |
| TemplNodes.RestoredIsRight | flt/templating/online_templater.hpp:168-279 | so the positions that a template restores are exactly those, by the lines it has forgotten |
| Splitting.ParamsAre | flt/templating/online_templater.hpp:32-37 | which words may be parameters: those with a character other than the digits, the letters and the colon, by their codes |
| Splitting.RestoredHasPartner | flt/templating/online_templater.hpp:196-279 | every restored position is in bijection with another wildcard position |
| Splitting.SplitCoversOnce | flt/templating/online_templater.hpp:281-330 | each line of the forgotten history is matched by a new template, and by only one exactly if no other line can be mistaken for it at the restored positions; lines without the wildcard as a word never can |
| Splitting.SplitClearsIff | flt/templating/online_templater.hpp:281-330 | the new templates have lost exactly the restored wildcards if and only if no line has the wildcard as a word at a restored position |
| Splitting.SplitMatchesTwice | flt/templating/online_templater.hpp:281-330 | two lines of which the first is matched by both new templates, one of which has lost no wildcard |
| Splitting.SplitLosesFounder | flt/templating/online_templater.hpp:179-187 | a founding line with the wildcard as a word, and a second line, after which no new template of a split matches the first one |
| Splitting.SplitIsSpecific | flt/templating/online_templater.hpp:281-330 | each new template matches a line of the history and nothing the old one does not; it has gained no wildcard and lost the restored ones where that line has another word |
| Splitting.SplitMatchesExactly | flt/templating/online_templater.hpp:281-330 | any line, also one not seen, is matched by a new template exactly if the old one matches it and an entry of the table agrees with its words at the restored positions |
| Splitting.SplitIsProper | flt/templating/online_templater.hpp:281-330 | a split yields at least two templates |
| Splitting.SplitKeepsParams | flt/templating/online_templater.hpp:306-323 | what the new templates store at a tracked wildcard is, together, what the history has there |
| TemplSplits.BuildTempl | flt/templating/online_templater.hpp:287-305 | the loop over the words builds the specialised string and the parameters to store |
| TemplSplits.StoreEntry | flt/templating/online_templater.hpp:306-323 | one table entry adds to the stored parameters of its template, with a star at positions given up |
| TemplSplits.CollectSplits | flt/templating/online_templater.hpp:284-324 | the loop over the table collects exactly the specialised strings and the parameters of each |
| TemplSplits.SplitCoversRow | flt/templating/online_templater.hpp:281-330 | the written strings of a split match every line, by their words as read back, and all those that match it have the same words exactly if no other line can be mistaken for it |
| TemplSplits.SplitStemsFromRow | flt/templating/online_templater.hpp:281-330 | every string of a split matches a line |
| TemplSplits.SplitAtLeastTwo | flt/templating/online_templater.hpp:281-330 | a split yields at least two different strings |
| TemplSplits.SplitSeparators | flt/templating/online_templater.hpp:287-305 | a string of a split has the separators of the template |
| TemplNodes.TemplNode.SplitTempl | flt/templating/online_templater.hpp:168-331 | splits exactly if the lines put wildcards in a bijection, into one new template for each specialised string, and keeps everything else |
| TemplNodes.TemplNode.SplitCovers | flt/templating/online_templater.hpp:281-330 | the templates of a split match all lines of the history, and each fits them |
| TemplNodes.TemplNode.SplitKeepsStored | flt/templating/online_templater.hpp:306-323 | the templates of a split together store exactly what the old one has stored at a tracked wildcard that is not restored |
| TemplNodes.TemplNode.GivenUpStoresStar | flt/templating/online_templater.hpp:306-323 | at a wildcard that was given up every template of a split stores a star |
| TemplNodes.SplitLinesMatch | flt/templating/online_templater.hpp:281-330 | the same from the fields of the template alone |
| Outputs.SplitIsOutput | flt/templating/online_templater.hpp:281-330 | the strings of a split are the output of the lines the template was learned from, which is defined without the table |
| Outputs.OutputIsCorrected | flt/templating/online_templater.hpp:281-330 | the output of some lines is their template, or their template with the words of each line where wildcards are put back |
| Outputs.OutputLosesRightWildcards | flt/templating/online_templater.hpp:168-330 | for lines without the wildcard as a word that differ in at most 500 ways at the wildcards, whatever is written for them has lost exactly the wildcards in a bijection, decided by the lines |
| TemplSequences.ClosestExists | flt/templating/online_templater.hpp:456-466 | there is a closest template exactly if one is similar at all, and only one |
| TemplSequences.OldestOfClosestLearns | flt/templating/online_templater.hpp:456-466 | the most similar template learns the line, of several the one founded first, and the others stay as they are |
| TemplSequences.DissimilarFounds | flt/templating/online_templater.hpp:466-477 | a line that is similar to none becomes a template |
| TemplLayers.TemplLayer.FindClosest | flt/templating/online_templater.hpp:456-466 | finds the first of the most similar templates of those that the lines alone determine, or that none is similar enough |
| TemplLayers.TemplLayer.Update | flt/templating/online_templater.hpp:456-477 | the closest template alone learns the line, or the line becomes a new template; all lines stay accounted for, the templates stay those that the lines alone determine, and no line that was bound to be matched is lost |
| TemplLayers.TemplLayer.SplitTempls | flt/templating/online_templater.hpp:425-432 | replaces all earlier split templates by those of the current tables |
| TemplLayers.TemplLayer.SaveTempls | flt/templating/online_templater.hpp:442-454 | writes the templates that were not split, then the split ones |
| TemplLayers.TemplLayer.SavedExactly | flt/templating/online_templater.hpp:442-454 | in every reachable state, what is written are the templates that were not split and the split ones, and as many strings as these are |
| TemplLayers.TemplLayer.SavedIsOutput | flt/templating/online_templater.hpp:442-454 | with how many copies each: the template of its lines, or the output of the lines known at its last split |
| TemplLayers.TemplLayer.SavedAfterSplit | flt/templating/online_templater.hpp:425-454 | right after a split that is the output of the lines of each template, which the lines fed alone determine |
| TemplHistories.SplitsLearn | flt/templating/online_templater.hpp:456-477 | what past splits owe to the lines known by then stays true when a template learns a line, and the line is bound to be matched unless the template was split |
| TemplLayers.TemplLayer.LineIsWritten | flt/templating/online_templater.hpp:442-454 | in every reachable state what would be written matches all lines of templates that were not split and all lines known when a template was split |
| TemplLayers.TemplLayer.FedIsKept | flt/templating/online_templater.hpp:425-432 | these are all lines right after a split, and as long as nothing was split |
| TemplLayers.TemplLayer.LearnedFits | flt/templating/online_templater.hpp:456-477 | in every reachable state, each template and whatever would be written, split recently, long ago or never, matches a line it was learned from, keeps the words these lines share and, without the wildcard in these lines, its share of literal words |
| TemplLayers.TemplLayer.NodeFits | flt/templating/online_templater.hpp:456-477 | so each template fits all lines fed to the layer |
| TemplLayers.TemplLayer.SavedFits | flt/templating/online_templater.hpp:425-454 | and so does whatever would be written |
| TemplLayers.TemplLayer.SavedCovers | flt/templating/online_templater.hpp:425-454 | after a split, the written templates cover all lines of the layer and fit them |
| Similarities.SimilarityIsShare | flt/templating/online_templater.hpp:120-148 | the similarity is the share of positions with equal words less the threshold, unless unequal words have different separators in front or are keys |
| Similarities.MostlyLiteralIs | flt/templating/online_templater.hpp:120-148 | the share of literal words counts the positions that do not hold the wildcard |
| Similarities.SimilarKeepsLiterals | flt/templating/online_templater.hpp:120-148 | a line without the wildcard as a word that is similar enough leaves its template more than the threshold's share of literal words |
| Similarities.SimilarKeepsLiteralsIffPlain | flt/templating/online_templater.hpp:120-148 | a line that joins leaves every template that share, for every threshold, exactly if it does not have the wildcard as a word |
| Similarities.FirstLineIsLiteral | flt/templating/online_templater.hpp:456-477 | a new template has that share exactly if the threshold is below one |
| Similarities.LiteralsKept | flt/templating/online_templater.hpp:281-330 | a template with fewer wildcards keeps that share |
| Routing.RouteSays | flt/templating/online_templater.hpp:524-547 | which lines go under which word: the star is for lines that start and end with possible parameters, and for no others |
| Routing.RoutedWordIsLiteral | flt/templating/online_templater.hpp:524-547 | a template that keeps what its lines share has their routing word in its place |
| Routing.TokenLayer.FindRoute | flt/templating/online_templater.hpp:524-546 | the walk to the last word finds the route |
| Routing.TokenLayer.GetTemplNodes | flt/templating/online_templater.hpp:524-547 | the layer of the route, new only if it is needed |
| Routing.TokenLayer.Update | flt/templating/online_templater.hpp:488-491 | one layer learns the line, no other changes, and no line that was bound to be matched is lost |
| Routing.TokenLayer.SavedFits | flt/templating/online_templater.hpp:493-521 | in every reachable state, what would be written is a template of the lines it was learned from, all of one width and route, and matches a line fed |
| Routing.TokenLayer.SavedCovers | flt/templating/online_templater.hpp:493-521 | after a split, what all layers write covers all lines of this number of words |
| Routing.TokenLayer.SaveTempls | flt/templating/online_templater.hpp:513-521 | writes what each route writes, once and nothing else |
| Routing.TokenLayer.SavedAfterSplit | flt/templating/online_templater.hpp:493-521 | right after a split that is the output of the lines of each route |
| Routing.TokenLayer.RouteIsKept | flt/templating/online_templater.hpp:524-547 | in every reachable state, templates filed under a first or last word that cannot be a parameter have that word in its place, and so has whatever would be written for them |
| Accounts.BalancedMore | flt/templating/online_templater.hpp:557-562 | each part has been fed exactly the lines with its key, in order, and one more line keeps it so |
| OnlineTemplaters.LengthLayer.GetTokenLayer | flt/templating/online_templater.hpp:557-562 | the layer for lines of that many words, new only if it is needed |
| OnlineTemplaters.LengthLayer.Update | flt/templating/online_templater.hpp:557-562 | the line goes to the layer of its number of words; the other layers stay, and no line that was bound to be matched is lost |
| OnlineTemplaters.LengthLayer.SplitTempls | flt/templating/online_templater.hpp:564-567 | splits all layers and loses no line |
| OnlineTemplaters.LengthLayer.SaveTempls | flt/templating/online_templater.hpp:577-582 | writes what each width and route writes, once and nothing else; after a split the lines alone determine it, with how many copies |
| OnlineTemplaters.OnlineTemplater.Feed | flt/templating/online_templater.hpp:594-598 | learns a line unless it is empty; lines bound to be matched stay so, and as long as nothing was split the new line is one of them |
| OnlineTemplaters.OnlineTemplater.SplitTempls | flt/templating/online_templater.hpp:600 | from then on all lines fed so far are bound to be matched |
| OnlineTemplaters.OnlineTemplater.SaveTempls | flt/templating/online_templater.hpp:604-607 | in every reachable state, what is written is what each width and route writes, a template of the lines it was learned from, which alone decide its share of literal words, matches a line fed, and matches all lines bound to be matched; after a split, these are all lines, and what is written is, with how many copies, the output of the lines of each template |
| LineGroups.NoWildcardsAdmitted | flt/templating/online_templater.hpp:475-477 | among lines without the wildcard as a word none founds a template that starts with a wildcard, so they meet the condition of TemplateLog |
| LineGroups.OutputIsForLines | flt/templating/online_templater.hpp:168-331 | without the wildcard in the lines, whatever is written is written for the lines of one template and has lost exactly those of its wildcards that these lines have in a bijection |
| SharedLines.OtherKeepsWildcard | flt/templating/online_templater.hpp:456-477 | four lines, two of them in a bijection, one of which is also matched by what is written for the other two, with a wildcard left there |
| OnlineTemplaters.TemplateLog | tools/online_templater.cpp:60-69 | from lines to what is written, which they alone determine: for each group of lines and each template these lead to, the output of the lines it was learned from, with how many copies; every line is matched, and every written template matches a line, keeps what the lines of that width and route share and, without the wildcard in the lines, has lost exactly the wildcards in a bijection and has more than the threshold's share of literal words |
| StringTables.VectorOfOffset | flt/string/string_table.hpp:79-87 | different index vectors have different offsets |
| StringTables.OffsetOfVector | flt/string/string_table.hpp:79-87 | every offset below the size is that of an index vector in range |
| StringTables.LastOffset | flt/string/string_table.hpp:109-111 | the last cell is that of the full lengths |
| StringTables.WeightedSumIsOffset | flt/string/string_table.hpp:79-87 | the inner product with the weights is the number in the mixed-radix system |
| StringTables.ShiftOne | flt/string/string_table.hpp:88-95 | shifting one index shifts the offset by that many weights |
| StringTables.ShiftAll | flt/string/string_table.hpp:96-108 | shifting all indices shifts it by that many times all weights |
| StringTables.FillIsWeights | flt/string/string_table.hpp:199-213 | the recursion of the fixed-dimensional table yields the same weights and the size |
| StringTables.ImplIsWeightedSum | flt/string/string_table.hpp:215-227 | the recursion over the indices is the inner product |
| StringTables.StringTable.NDimensional | flt/string/string_table.hpp:150-165 | a table for any words with a default in all cells |
| StringTables.StringTable.FixedDimensional | flt/string/string_table.hpp:172-180 | the same for a fixed number of words |
| StringTables.StringTable.At | flt/string/string_table.hpp:182-196 | reads the cell of the given indices |
| StringTables.StringTable.CalculateOffset | flt/string/string_table.hpp:79-87 | computes the offset of an index vector |
| StringTables.StringTable.CalculateRelativeOffset | flt/string/string_table.hpp:88-95 | the offset of the vector with one index shifted, while in range |
| StringTables.StringTable.CalculateAllRelativeOffset | flt/string/string_table.hpp:96-108 | the offset of the vector with all indices shifted, while in range |
| StringTables.StringTable.GetNthWordlength | flt/string/string_table.hpp:118-126 | recovers every length from the weights alone |
| CommonSubsequences.FilledIsLongest | flt/string/longest_common_subsequence.hpp:80-110 | every cell of a complete table holds the greatest length of a common subsequence of the prefixes it stands for |
| CommonSubsequences.PickedIsCommon | flt/string/longest_common_subsequence.hpp:162-173 | what an alignment picks from one word is a subsequence of every word, up to the comparison |
| CommonSubsequences.CommonIsAligned | flt/string/longest_common_subsequence.hpp:80-110 | every common subsequence is as long as some alignment of the words |
| LongestCommonSubsequence.ChooseDimension | flt/string/longest_common_subsequence.hpp:98-109 | the candidate loop stores the largest value below and the first dimension that reaches it, and touches no other cell |
| LongestCommonSubsequence.FillCell | flt/string/longest_common_subsequence.hpp:76-110 | one cell of the nest: all cells passed stay right |
| LongestCommonSubsequence.PassedReadsOthers | flt/string/longest_common_subsequence.hpp:69-115 | no cell the nest has passed was computed from the one it is about to write |
| LongestCommonSubsequence.InnerDynamicLoop | flt/string/longest_common_subsequence.hpp:69-115 | the recursive loop nest passes exactly the cells that come in lexicographic order, and each then is right |
| LongestCommonSubsequence.CalculateLcsMatrix | flt/string/longest_common_subsequence.hpp:54-122 | builds a complete table for one word or more |
| LongestCommonSubsequence.WhereToGo | flt/string/longest_common_subsequence.hpp:136-155 | a cell with a value above zero either ends in a match with one less behind it, or names a dimension along which nothing is lost; the walk never leaves the table |
| LongestCommonSubsequence.WalkBack | flt/string/longest_common_subsequence.hpp:126-156 | the walk finds an alignment as long as the last cell says, and the stack marks it in the chosen word |
| LongestCommonSubsequence.FindLcsPath | flt/string/longest_common_subsequence.hpp:126-174 | outputs what that alignment picks from the chosen word; the last element leaves the stack empty |
| LongestCommonSubsequence.LongestCommonSubsequence | flt/string/longest_common_subsequence.hpp:177-186 | for an equivalence, a common subsequence of all words that no other one exceeds; for any comparison, a longest alignment read off the first word |
| Levenshtein.ScriptCostsEnough | flt/string/levenshtein_path.hpp:59-70 | no edit script is cheaper than the distance |
| Levenshtein.CheapestScript | flt/string/levenshtein_path.hpp:59-70 | some edit script costs the distance |
| Levenshtein.DistanceIsMinimum | flt/string/levenshtein_path.hpp:59-70 | the last cell is the least cost of all edit scripts |
| Levenshtein.Neighbours | flt/string/levenshtein_path.hpp:51-70 | cells next to each other differ by at most one, and a diagonal step adds zero or one |
| Levenshtein.BackStepIsRight | flt/string/levenshtein_path.hpp:82-92 | the operation picked from four cell values alone costs their difference; retention means a match, substitution a mismatch |
| Levenshtein.BackStepPrefers | flt/string/levenshtein_path.hpp:82-92 | it goes to the cheapest cell in front, the diagonal one before the one above before the one on the left |
| Levenshtein.ZeroIffMatching | flt/string/levenshtein_distance.hpp:40-52 | distance zero exactly for sequences that match element by element |
| Levenshtein.TriangleInequality | flt/string/levenshtein_distance.hpp:58-79 | the triangle inequality, by composing edit scripts |
| Levenshtein.StringDistanceIsMetric | flt/string/levenshtein_distance.hpp:58-79 | on strings under equality the distance is a metric |
| LevenshteinRow.LevenshteinDistanceOrdered | flt/string/levenshtein_distance.hpp:19-55 | the one row overwritten in place ends with the distance, the last cell of the full matrix |
| LevenshteinRow.LevenshteinDistance | flt/string/levenshtein_distance.hpp:58-79 | with the shorter sequence first, the distance under the comparison as it is then called |
| LevenshteinRow.SwapHarmlessIffSymmetric | flt/string/levenshtein_distance.hpp:70-78 | swapping the arguments never changes a distance exactly if the comparison is symmetric |
| LevenshteinPath.CalculateLevenshteinMatrix | flt/string/levenshtein_path.hpp:28-73 | all cells hold the distances of their prefixes |
| LevenshteinPath.PickItem | flt/string/levenshtein_path.hpp:82-92 | the choice at one cell |
| LevenshteinPath.EdgeBack | flt/string/levenshtein_path.hpp:110-125 | from an edge of the matrix, deletions or insertions alone complete the script |
| LevenshteinPath.FindLevenshteinPath | flt/string/levenshtein_path.hpp:77-133 | without looking at the sequences, returns a script that turns one into the other and costs the last cell; retentions fall exactly on matching pairs; of the cheapest scripts, the one that the preferred steps make |
| LevenshteinPath.LevenshteinPath | flt/string/levenshtein_path.hpp:137-145 | distance and script of any two sequences |
| WeightedEditDistance.WeightedDistance | flt/string/weighted_edit_distance.hpp:42-66 | the three loops compute the weighted sum over both sequences padded with empty words |
| WeightedEditDistance.OnePositionCounts | flt/string/weighted_edit_distance.hpp:42-66 | if words differ in one position only, the distance is theirs times the weight of that position, counted from one |
| WeightedEditDistance.WordReplaced | flt/string/weighted_edit_distance.hpp:42-66 | replacing a word changes the distance by what the words in its position differ, times the weight of the position |
| WeightedEditDistance.WordAppended | flt/string/weighted_edit_distance.hpp:42-66 | so does another word at the end, in place of the empty one if the other sequence goes on |
| WeightedEditDistance.PaddedIsPseudoMetric | flt/string/weighted_edit_distance.hpp:42-66 | with weights not below zero, symmetry and the triangle inequality lift from words to sequences of any lengths |
| WeightedEditDistance.ZeroIffPaddedEqual | flt/string/weighted_edit_distance.hpp:42-66 | with weights above zero, distance zero means equal after padding |
| WeightedEditDistance.LineDistance | flt/string/weighted_edit_distance.hpp:42-66 | the same for lines whose words are compared by Levenshtein distance |
| DistanceClassifier.FirstSplitHasGap | flt/clustering/distance_classifier.hpp:41-50 | the initial split separates different values, and is missing exactly if all values are the same |
| DistanceClassifier.StartIsFirstSplit | flt/clustering/distance_classifier.hpp:41-50 | the search starts at the only split that is the lower end of the run of the middle value or, if that run starts at the front, its upper end |
| DistanceClassifier.NextIsSplit | flt/clustering/distance_classifier.hpp:75-88 | the cutoff is strictly between the means, so neither class becomes empty and the new classes differ at the split |
| DistanceClassifier.CutoffMonotone | flt/clustering/distance_classifier.hpp:75-77 | the cutoff rises with the split |
| DistanceClassifier.MoveInwards | flt/clustering/distance_classifier.hpp:101-109 | moving values to the lower class keeps sums and counts right |
| DistanceClassifier.MoveOutwards | flt/clustering/distance_classifier.hpp:110-119 | moving values to the upper class keeps sums and counts right |
| DistanceClassifier.Turns | flt/clustering/distance_classifier.hpp:93-99 | the split only ever moves in its first direction, and comparing the last two cutoffs shows that direction |
| DistanceClassifier.OneMorePass | flt/clustering/distance_classifier.hpp:74-123 | a pass does not overshoot: no stable split is passed |
| DistanceClassifier.DeviationFalls | flt/clustering/distance_classifier.hpp:74-123 | every pass that changes the split strictly lowers the squared deviations within the classes |
| DistanceClassifier.StableIsNearest | flt/clustering/distance_classifier.hpp:77-89 | a split is stable exactly if each value is nearest to the mean of its own class, ties going to the lower one |
| DistanceClassifier.StableIsFixed | flt/clustering/distance_classifier.hpp:77-89 | the loop stops exactly at stable splits |
| DistanceClassifier.DistanceClassificationThresholdSorted | flt/clustering/distance_classifier.hpp:20-130 | fails exactly for fewer than two or identical values; otherwise starts at the end of the run of the middle value, and terminates at the first stable split in its direction, with deviations no larger than at the start |
| DistanceClassifier.ThresholdSeparates | flt/clustering/distance_classifier.hpp:124-129 | the value returned separates the classes, each value at least as close to its own mean |
| Agglomerative.Bfs | flt/clustering/agglomerative.hpp:17-44 | finds exactly what the first node reaches among the nodes, in any order of iteration, also if it is not one of them |
| Agglomerative.SymmetricIsMutual | flt/clustering/agglomerative.hpp:77-80 | with symmetric edges, whoever is reached reaches back |
| Agglomerative.SameComponent | flt/clustering/agglomerative.hpp:77-80 | then the nodes of a component all have that component |
| Agglomerative.WholeOrGone | flt/clustering/agglomerative.hpp:77-97 | a cluster computed in a batch remains wholly or not at all, so looking at one node of it is enough |
| Agglomerative.RemainingComponent | flt/clustering/agglomerative.hpp:63-68 | searching the remaining nodes finds the components of all nodes |
| Agglomerative.ClusteringExistsIffMutual | flt/clustering/agglomerative.hpp:77-80 | an output of all components, each once and without overlap, exists exactly if whoever is reached reaches back |
| Agglomerative.SearchBatch | flt/clustering/agglomerative.hpp:56-72 | up to as many searches as threads, each from a remaining node, and at least one |
| Agglomerative.AgglomerativeClustering | flt/clustering/agglomerative.hpp:48-101 | terminates with such an output, whatever the number of threads and the order |
| HashCombine.SameValues | flt/util/cache_adaptors.hpp:71-80 | pairs compare equal exactly if they hold the same values in any order |
| HashCombine.SymmetricHashAgrees | flt/util/hash_combine.hpp:59-77 | pairs that compare equal have equal symmetric hashes |
| HashCombine.OrderedHashDisagrees | flt/util/hash_combine.hpp:20-23 | the ordered hash of a swapped pair can differ |
| HashCombine.CombinedValues | flt/util/hash_combine.hpp:12-23 | two values of the mixing, which fix the constant and show carries, shifts and wrap-around |
| Caches.BucketsSoundIffHashAgrees | flt/util/cache_adaptors.hpp:34-35 | what is stored is found under every equal key, for any number of buckets, exactly if equal keys have equal hashes |
| Caches.HoldsMore | flt/util/cache_adaptors.hpp:24-29 | storing a new result keeps the table what the evaluated calls say |
| Caches.CacheAdaptor.Call | flt/util/cache_adaptors.hpp:22-30 | answers with the value of the first equal call, and evaluates only if there was none |
| Caches.FirstsDiffer | flt/util/cache_adaptors.hpp:22-30 | no two of the evaluated arguments are equal |
| Caches.ExactIffRespects | flt/util/cache_adaptors.hpp:22-30 | every run of calls gets the function's own results exactly if the function does not tell equal arguments apart |
| Caches.SymmetricCacheIsSound | flt/util/cache_adaptors.hpp:71-92 | hash and comparison of the symmetric cache fit together, and its function is respected exactly if it is symmetric |
| SynchronizedCaches.StepIsSafe | flt/util/cache_adaptors.hpp:45-62 | every step of every thread keeps lock, table, logs and what threads know consistent |
| SynchronizedCaches.RunsAreSafe | flt/util/cache_adaptors.hpp:45-62 | so do all interleavings of any number of threads |
| SynchronizedCaches.WritersAreAlone | flt/util/cache_adaptors.hpp:48-61 | no thread writes beside another one that reads or writes |
| SynchronizedCaches.EvaluatedOnce | flt/util/cache_adaptors.hpp:53-61 | in no interleaving is the function evaluated for two equal arguments |
| SynchronizedCaches.RunsAreSequential | flt/util/cache_adaptors.hpp:45-62 | every interleaving answers as the sequential cache does on the calls in the order in which they take effect, and each call returns what is logged in its own entry, the only one its thread has made since the call began |
| SynchronizedCaches.NeverStuck | flt/util/cache_adaptors.hpp:45-62 | while a thread is in a call, one of those in a call can go on |
| SynchronizedCaches.ExactInAllRunsIffRespects | flt/util/cache_adaptors.hpp:45-62 | every call in every interleaving returns the function's own result exactly if the function does not tell equal arguments apart |

## Left out

- Regular expression filters (`flt/parameter_filter`): their meaning is that of `std::regex`. Only the test for possible parameters is modelled, as a search for a character other than a letter, a digit or a colon; this covers its second alternative, which starts with a dollar sign.
- Log line elements (`flt/logline`): stream parsing over locales, `mktime` and `inet_pton`.
- Output to files and the console, the prefix and the printing of parameters: the model returns the templates that would be written.
- OnlineTemplaters.OnlineTemplater.Feed: a line with the wildcard as a word that founds a template is not admitted, because the table of such a template is not its history (`ParamTables.TableIsHistoryIffFounded`) and a split can lose that line (`Splitting.SplitLosesFounder`); which positions a split of such a table restores depends on the order of its entries and is not modelled beyond that example.
- The order of split templates and of layers in unordered maps: results are stated for any order, and the sets of split templates are listed in an arbitrary one.
- The two maps of a token layer by first and by last word are one map here, with the side as part of the key.
- `quoted_word_iterator`, locales other than the classic one, and iterator categories.
- Sorting before the classification (`distance_classification_threshold`): a call of `std::sort`.
- Floating point: similarities, weights and means are reals, and the assertion about `epsilon` in the classifier is not modelled. A similarity without any words is a value that exceeds nothing.
- Unsigned wrap-around and memory limits: numbers are unbounded, apart from hashes.
- `std::hash` of elements is an arbitrary function, hashes of more than two values are not modelled, and tables do not grow their number of buckets.
- Real threads in the clustering: the searches of a batch only read the nodes and are all awaited before a node is removed, so they run one after the other here.
- A cached function is a function: it neither changes state nor fails.
- `TemplLayers.TemplLayer.SavedCovers` and what builds on it claim nothing about trailing separators, which the source compares at the end of both lines.
- `sigmoids.hpp`, `cluster_utils.hpp`, `type_utils.hpp`: weights that are covered by arbitrary ones, a plain search for a minimum, and static assertions.
