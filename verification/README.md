# ClassAds and the connection broker: a verified model

This project models two parts of Condor and proves properties of the model with Dafny: the
ClassAd library with its ad collection, and the connection broker (CCB) through which daemons
behind a firewall are reached.

| files | what they model |
|---|---|
| `BoolVectors`, `Transversals`, `BoolTable` | conflict analysis: from a table of conditions by machines, the maximal satisfied sets and the minimal conflicting sets |
| `Expressions`, `Meanings`, `Flatten`, `Residuals`, `Words`, `MixedSplits` | evaluation of integer and boolean expressions, the laws it obeys, and partial evaluation ("flattening") |
| `Syntax`, `Parser`, `Grouping`, `TimeLiterals` | the expression parser against the unparser, at the level of tokens, and how operators group |
| `Strings`, `RelTimes` | string literals with their escapes, and relative times, as text |
| `Options`, `Keys` | optional values, and the order of keys |
| `ViewMembers`, `Views`, `ViewObjects` | the tree of views that is kept up to date ad by ad |
| `AdStore`, `AdLog`, `LogText`, `ViewDump`, `Collection` | operations, transactions with undo, the log with its replay, the log as a text that a crash may cut anywhere, the state dump, and the collection object |
| `StorageFile`, `AdCache`, `CachedCollection`, `CacheViews` | the storage file with its index, the memory cache in front of it, and what the views see of it |
| `CcbTables`, `CcbServer`, `CcbProtocol`, `CcbRefinement`, `CcbClient` | the broker's tables and handlers, the three-party protocol, the server as an implementation of it, and the client's retry machine |

An ad is an opaque value. `Update` and `Modify` are functions of two ads, a view's constraint and
rank are functions of one. Whatever comes from outside (which socket is ready, whether a write
succeeds, which ad is evicted, the time) is a parameter or an arbitrary choice. Code that updates
objects is modelled by classes and methods; each method is proved equal to a function of the old
state, and the properties are proved about these functions.

`dafny verify dfyconfig.toml` checks everything.

## Model

| member | source | states |
|---|---|---|
| `BoolVectors.IsTrueSubsetOf` | src/classad_analysis/boolValue.cpp:212-229 | whether the TRUE rows of one vector lie within those of another; no answer for different lengths |
| `BoolVectors.AddMaximal` | src/classad_analysis/boolValue.cpp:650-681 | one scan keeps an antichain in which every vector seen has a superset |
| `BoolVectors.AddMinimal` | src/classad_analysis/boolValue.cpp:756-777 | the pruning scan keeps an antichain in which every vector seen has a subset |
| `Transversals.DistributeStep` | src/classad_analysis/boolValue.cpp:713-754 | one round of the distribution extends "these entries characterise the sets that meet every base vector" by one base vector |
| `Transversals.PrunedTransversals` | src/classad_analysis/boolValue.cpp:756-777 | the entries that survive the pruning are exactly the inclusion-minimal sets that meet every base vector |
| `BoolTables.ConflictsByMaximal` | src/classad_analysis/boolValue.cpp:691-711 | a row set conflicts with all columns if and only if it meets the negation of every maximal column, so the columns that the first pass dropped do not matter |
| `BoolTables.BoolTable.GenerateMaximalTrueBVList` | src/classad_analysis/boolValue.cpp:650-681 | the result is an antichain of columns that dominates every column |
| `BoolTables.BoolTable.GenerateMinimalFalseBVList` | src/classad_analysis/boolValue.cpp:684-787 | with a column, the result holds exactly the inclusion-minimal row sets in which every column has a row that is not TRUE, each once; without columns it is empty |
| `BoolTables.BoolTable.GenerateMaxTrueABVList` | src/classad_analysis/boolValue.cpp:589-647 | the columns of maximal recorded total, partitioned by TRUE pattern with frequencies as class sizes; with exact totals these are the columns with the most TRUE cells and no others |
| `BoolTables.BoolTable.CommonTrue` | src/classad_analysis/boolValue.cpp:827-839 | two columns are TRUE in the same rows |
| `BoolTables.BoolTable.Init` | src/classad_analysis/boolValue.cpp:410-446 | a new table is FALSE everywhere, with totals that count its TRUE cells |
| `BoolTables.BoolTable.SetValue` | src/classad_analysis/boolValue.cpp:450-462 | what is stored and counted; row and column totals keep equal sums whatever is stored |
| `BoolTables.TotalsAfterSet` | src/classad_analysis/boolValue.cpp:450-462 | one store keeps the totals exact if and only if the overwritten cell was not TRUE |
| `BoolTables.TotalsAfterRun` | src/classad_analysis/boolValue.cpp:450-462 | after any run of stores the totals count the TRUE cells if and only if no store hit a TRUE cell |
| `BoolTables.RepeatedTrueMisleads` | src/classad_analysis/boolValue.cpp:589-647 | an input on which a repeated TRUE store makes a column with fewer TRUE cells count as maximal |
| `Expressions.ShiftNegative` | src/classad/operators.cpp:1054-1120 | the loop that shifts a negative word right and sets the sign bit each time computes the arithmetic shift, for any count: all ones from 31 on, and the word itself for a count of zero or less |
| `Meanings.EvaluatesIff` | src/classad/operators.cpp:173-371 | evaluation computes exactly what the operators mean, where that is given by laws: comparisons by the order of integers, sums, differences and products up to multiples of 2^32, quotient and remainder by the division toward zero, words by their bits, && and \|\| as the lesser and the greater of false, undefined and true, and errors and undefined operands as they are passed on |
| `Meanings.MeansIff` | src/classad/operators.cpp:770-1133 | the same for one binary operator on any two values: the law determines the result, and it is the one computed |
| `Expressions.EvaluateDeeper` | src/classad/attrrefs.cpp:154-200 | the recursion limit only limits: an evaluation that succeeds gives the same value with more depth |
| `Expressions.Regroups` | src/classad/operators.cpp:712-763 | for each operator that is reordered, constants and trees of two operands may be regrouped, with wrap-around and with undefined and error operands |
| `Flatten.CombineDenotes` | src/classad/operators.cpp:624-767 | outside the mixed-split case `combine` stands for the operator applied to its operands' values |
| `Flatten.FlattenReference` | src/classad/attrrefs.cpp:261-346 | a known attribute flattens to what its expression flattens to |
| `Residuals.ClosedFolds` | src/classad/operators.cpp:543-767 | where every attribute is known and no selector is undefined, flattening gives a value |
| `Residuals.InlineLeavesOpen` | src/classad/operators.cpp:543-767 | FlattenAndInline leaves no reference to a known attribute, unless a selector is undefined |
| `Residuals.ConditionalFoldsIff` | src/classad/operators.cpp:1650-1712 | a conditional of values is folded if and only if its selector is not undefined |
| `Residuals.UndefinedSelectorStays` | src/classad/operators.cpp:1650-1712 | an input: everything is known, the conditional evaluates to undefined and stays a tree |
| `Flatten.FlattenPreservesMeaning` | src/classad/operators.cpp:543-767 | where no mixed split occurs, flattening preserves meaning: the flattened value or tree evaluates as the original does |
| `MixedSplits.HarmlessPreservesMeaning` | src/classad/operators.cpp:543-767 | flattening preserves meaning: for every expression whose mixed splits have harmless constants, under every assignment to the open attributes the flattened value or tree evaluates as the original does |
| `MixedSplits.FlattenedMeans` | src/classad/operators.cpp:543-767 | so the flattened value or tree has a value by these laws if and only if the original has |
| `MixedSplits.OneKindIsUnmixed` | src/classad/operators.cpp:723-763 | expressions with reordered operators of one kind never meet the mixed-split case |
| `MixedSplits.UnmixedIsHarmless` | src/classad/operators.cpp:723-763 | and those that do not meet it are harmless |
| `Flatten.AbsorbedOperandPreservedIff` | src/classad/operators.cpp:1622-1762 | `x \|\| true` and `x && false` are folded without looking at x, which is right if and only if x is boolean or undefined |
| `Flatten.BitwiseOperandPreservedIff` | src/classad/operators.cpp:723-729 | when regrouping `(x & c) & m` changes the value of an undefined x |
| `Words.AbsorbedIffAgree` | src/classad/operators.cpp:723-763 | on 32-bit words, for every pair of operators: leaving out the second constant never changes the result if and only if the two constants agree, a condition on their bits |
| `Words.DifferingWords` | src/classad/operators.cpp:723-763 | otherwise two words for which the result changes |
| `MixedSplits.MixedPreservedIff` | src/classad/operators.cpp:723-763 | the mixed-split case, for every pair of different reordered operators, every two constants and both orders: meaning is preserved if and only if the constants are harmless |
| `MixedSplits.MixedTreesIff` | src/classad/operators.cpp:723-763 | the same for any two subtrees that can take any values: the combined form has the value of the original at all of them if and only if the constants are harmless |
| `MixedSplits.MixedSplitCounterexample` | src/classad/operators.cpp:723-763 | (1 + x) + (2 * y), in either order, loses its factor |
| `Syntax.ClassAdUnParser.Unparse` | src/classad/sink.cpp:254-319 | what is appended to the buffer; a time value is written as a call of absTime or relTime on its text |
| `Parser.ParseOfPrinted` | src/classad/source.cpp:334-1087 | parsing the printed tokens of a grammatical tree consumes exactly those tokens, and gives the tree back if and only if it holds no call that the parser turns into a time literal and the text of each of its time values is read as that value |
| `Parser.TimeCallNotGivenBack` | src/classad/source.cpp:1294-1344 | relTime("1") is grammatical and is not given back: it becomes a literal |
| `Syntax.SameNameIff` | src/classad/source.cpp:919-931 | function names are the same if they match letter by letter in either case |
| `Parser.ParsedGivenBack` | src/classad/source.cpp:919-931 | a tree that came from the parser, printed and parsed again, is the same if and only if its time values survive their text |
| `Parser.PrintOfParsed` | src/classad/sink.cpp:350-421 | printing what was parsed writes the consumed tokens if and only if the time calls among them were as the unparser writes them |
| `Parser.PrintOfWritten` | src/classad/source.cpp:334-883 | before time calls are turned into values, the tree read prints as exactly the consumed tokens and has operands at the levels the grammar asks for |
| `Grouping.ChainParses` | src/classad/source.cpp:382-773 | operands and binary operators in any number: what is read is the last operator of the loosest group, applied to what is read from the parts before and after it; the ten groups are written out |
| `Grouping.ThreeOperands` | src/classad/source.cpp:382-773 | of two operators the tighter one takes the operand between them, and of two in one group the first one |
| `Grouping.UnaryBinds` | src/classad/source.cpp:775-824 | a sign or a negation applies before any binary operator |
| `Grouping.PostfixBinds` | src/classad/source.cpp:826-883 | subscript and selection apply before it |
| `Grouping.ConditionalBinds` | src/classad/source.cpp:334-377 | the conditional applies after every binary operator |
| `Grouping.ConditionalGroups` | src/classad/source.cpp:334-377 | conditionals group from the right |
| `Parser.ClassAdParser.Expression` | src/classad/source.cpp:334-377 | the one-pass parser computes the specified tree and remaining input, or fails when the specification does |
| `Parser.ClassAdParser.BinaryExpression` | src/classad/source.cpp:382-773 | the loops of the ten binary levels build the left-nested tree of the specification from the same tokens |
| `Parser.ClassAdParser.PrimaryExpression` | src/classad/source.cpp:894-1087 | primary expressions as specified, a time call becoming a literal as it is met |
| `Strings.ReadPrinted` | src/classad/sink.cpp:116-163 | for every string of bytes: tokenizing and decoding its printed form gives it back and stops at the printed quote, up to spaces, if it holds no byte 0, and is a token error if it does; if another quote follows, the string is put in front of what is read from there |
| `Strings.PlainCharacter` | src/classad/sink.cpp:116-163 | a character is written as it is if and only if it lies between space and tilde and is neither the delimiter nor the backslash |
| `Strings.EscapedCharacter` | src/classad/sink.cpp:116-163 | the others as a backslash with themselves, with one of seven letters, or with three octal digits |
| `Strings.UnescapeOfBody` | src/classad/util.cpp:133-222 | decoding undoes escaping, in front of any continuation |
| `Strings.OneDigit` | src/classad/util.cpp:133-222 | an escape of one octal digit stands for its value, and the string is rejected if that is 0 |
| `Strings.TwoDigits` | src/classad/util.cpp:133-222 | of two digits, the first one leading; a third digit is not taken if the first is above 3 |
| `Strings.ThreeDigits` | src/classad/util.cpp:133-222 | of three |
| `Strings.LetterEscape` | src/classad/util.cpp:133-222 | the seven letters that stand for the control characters 7 to 13 |
| `Strings.OtherEscape` | src/classad/util.cpp:133-222 | anything else stands for itself |
| `Strings.ScanOfBody` | src/classad/lexer.cpp:511-525 | the scan for the closing quote is not misled by escapes |
| `Strings.ClassAdUnParser.UnparseString` | src/classad/sink.cpp:116-163 | what is written for a string |
| `Strings.ConvertEscapes` | src/classad/util.cpp:133-222 | the index loop over the buffer computes the decoding, or rejects an escape for byte 0 |
| `Strings.Lexer.TokenizeString` | src/classad/lexer.cpp:499-566 | mark, wind and cut gather exactly the adjoining quoted parts; token type, value and remaining input are as specified |
| `RelTimes.RelTimeReadBackIff` | src/classad/literals.cpp:270-358 | a relative time is read back from its text if and only if the text of its seconds says their number, whatever the number formatting does with fractions |
| `RelTimes.IntegerReadBack` | src/classad/literals.cpp:270-358 | every integer number of seconds, negative ones included, is read back, in each of the short forms |
| `RelTimes.UnitsReadBack` | src/classad/util.cpp:307-359 | days, hours and minutes are read back from the text, whichever of them are written |
| `RelTimes.LettersRead` | src/classad/literals.cpp:270-358 | the form with letters in either case, which is only read, gives its units |
| `RelTimes.DecimalOfDigits` | src/classad/literals.cpp:270-358 | a decimal number is that of all its digits, divided by ten for each one behind the point |
| `RelTimes.TotalOfUnits` | src/classad/util.cpp:307-332 | no time is lost in the division into units, hours stay below 24, minutes and seconds below 60 |
| `RelTimes.TextExamples` | src/classad/util.cpp:334-359 | each of the forms of the text, what is zero in front being left out |
| `RelTimes.RelTimeToString` | src/classad/util.cpp:307-359 | what is appended to the buffer |
| `RelTimes.MakeRelTime` | src/classad/literals.cpp:270-358 | the index that runs back over the string computes the reading, or the error value |
| `TimeLiterals.IntegerLiteralGivenBack` | src/classad/source.cpp:1317-1344 | the literal of every whole number of seconds survives printing and parsing |
| `TimeLiterals.LiteralGivenBackIff` | src/classad/source.cpp:1317-1344 | any relative-time literal does so if and only if its text is read as its number of seconds |
| `ViewMembers.ReorderIff` | src/classad/view.cpp:88-128 | erasing a member by value and inserting it with another rank keeps the listing right if and only if no other member shares its undefined rank |
| `ViewMembers.ListsInOrder` | src/classad/view.cpp:88-128 | the order of a listing, in terms of ranks and characters: undefined ranks first, then rank by rank, and at one rank the key in front that ends first or has the lesser character where the two first differ |
| `Keys.KeyLessIff` | src/classad/view.cpp:118-124 | the order of keys is that of the first place where they differ |
| `Views.ModifiedCurrentIff` | src/classad/view.cpp:922-1036 | a modification keeps every view of the tree equal to its recomputation if and only if no view gives another rank to an ad that shares an undefined rank with another member |
| `Views.HoldsMatchingAds` | src/classad/view.cpp:824-895 | in a current tree a view holds exactly the keys whose ads meet its own and all its ancestors' constraints, each once, with its present rank, ordered by rank and then key |
| `Views.CurrentIsUnique` | src/classad/view.cpp:88-128 | with integer ranks, views that are current for the same table are equal, however the table came about |
| `Views.RankChangeDropsMember` | src/classad/view.cpp:962-1019 | two ads of undefined rank: giving one a rank drops the other from the member list |
| `Views.CreateSubViewCurrent` | src/classad/view.cpp:572-613 | creating a view never meets a member that the collection lacks, and the tree stays current with it |
| `ViewObjects.View.ClassAdInserted` | src/classad/view.cpp:824-895 | the linked view objects compute the specified insertion |
| `ViewObjects.View.ClassAdModified` | src/classad/view.cpp:922-1036 | the specified modification |
| `ViewObjects.View.ClassAdDeleted` | src/classad/view.cpp:1040-1074 | the specified deletion |
| `ViewObjects.View.InsertSubordinateView` | src/classad/view.cpp:572-613 | the new child comes first and is filled from the members |
| `AdStore.FailedCommitRestores` | src/classad/transaction.cpp:86-173 | if a transaction's keys are pairwise distinct, a failed commit follows no bad iterator, leaves the table as it was and every view what a recomputation gives |
| `AdStore.FailedCommitRestoresViews` | src/classad/transaction.cpp:86-173 | with integer ranks it leaves table and views exactly as they were |
| `AdStore.FailedCommitRestoresIff` | src/classad/transaction.cpp:86-173 | for any keys: the table is as it was if and only if the operations played are revertible key by key, a condition on what was played |
| `AdStore.RepeatedKeyIsNotRestored` | src/classad/transaction.cpp:120-173 | two additions of one key and a failure: the first addition stays in place of the ad that was there |
| `AdStore.RepeatedKeyBreaksUndo` | src/classad/transaction.cpp:120-173 | without such an ad the undo follows the end iterator |
| `AdStore.UpdateSoundIff` | src/classad/collectionBase.cpp:700-745 | for any ranks, exactly when an update keeps the views current |
| `AdLog.PrefixRecovers` | src/classad/collectionBase.cpp:237-483 | replaying any prefix of the log succeeds and gives the table after exactly the operations and committed transactions whose last record is in the prefix, with every view recomputed from it |
| `AdLog.RecoversIff` | src/classad/collectionBase.cpp:384-483 | the whole log is replayed without a failure if and only if no committed transaction reuses a name and every logged view could be created |
| `AdLog.NewCollectionRecovers` | src/classad/collectionBase.cpp:237-483 | the same for the log of a new collection |
| `AdLog.RecoveredCollectionRecovers` | src/classad/collectionBase.cpp:85-164 | the same for what a recovered collection appends, also after a log that was torn inside a transaction |
| `AdLog.ReusedNameFailsRecovery` | src/classad/collectionBase.cpp:384-483 | two committed transactions of one name make the log unreadable |
| `AdLog.DumpRecoversTable` | src/classad/collectionBase.cpp:1559-1642 | a dump of the table replays to the same table |
| `AdLog.CompleteIsLast` | src/classad/collectionBase.cpp:237-483 | what "whose last record is in the prefix" means: the events counted have all their records there and the next one has not |
| `LogText.CutRead` | src/classad/collection.cpp:326-420 | a log cut at any byte is read, without an error and to its end, as exactly the records whose closing bracket is there |
| `LogText.CrashRecovers` | src/classad/collection.cpp:326-420 | any number of bytes of what was logged since a start: recovery gives the table and views after exactly the events whose records can be read |
| `LogText.AppendedSurvivesIff` | src/classad/collection.cpp:326-374 | what is logged after a restart is read at the next one, behind what the restart had read, if and only if nothing was logged or the file was empty or ended with a newline |
| `LogText.RestartForgets` | src/classad/collection.cpp:384-420 | if a torn record and the first one logged after it are not an ad together, the next restart recovers what the last one did: all that was logged in between is gone |
| `LogText.NewlineLost` | src/classad/collection.cpp:326-343 | a record that lacks only its newline is kept, and the next one is lost |
| `LogText.TornRecordExample` | src/classad/collection.cpp:326-374 | an input: of two records logged after a torn one none is read |
| `LogText.LogFile.ReadLogEntry` | src/classad/collection.cpp:326-343 | the characters up to a newline or the end of the file, parsed; the position is behind them |
| `LogText.LogFile.ReadLogFile` | src/classad/collection.cpp:384-420 | the records up to the first line that is not one, and where the position is then |
| `LogText.LogFile.WriteLogEntry` | src/classad/collection.cpp:350-374 | the record is written at the position; after a reading to the end that is the end of the file |
| `ViewDump.DumpRecovers` | src/classad/collectionBase.cpp:1645-1691 | a dump of views and ads replays to the same table and the same views, each recomputed, with siblings in reverse order |
| `ViewDump.DumpAfterRun` | src/classad/collectionBase.cpp:1559-1691 | so it does after every run of a new collection |
| `ViewDump.SubtreeReplays` | src/classad/collectionBase.cpp:1645-1691 | the records of a subtree, replayed under a view, put the mirrored subtree in front of its children |
| `ViewDump.SameOrderIff` | src/classad/collectionBase.cpp:1645-1691 | with the distinct names of a collection, a restart from a dump gives the tree back if and only if no view has two children |
| `ViewDump.MirroredTwice` | src/classad/collectionBase.cpp:1645-1691 | after two restarts the siblings are in order again |
| `Collection.ViewsAfterRun` | src/classad/view.cpp:824-1074 | after every run of additions, updates, modifications, removals, transactions and view creations, each view holds exactly what it should |
| `Collection.ClassAdCollection.CrashRecovers` | src/classad/collectionBase.cpp:85-164 | the object that was initialised from a log and went on: any part of its log recovers the events that are complete in it |
| `Collection.ClassAdCollection.InitializeFromLog` | src/classad/collectionBase.cpp:85-164 | the replay loop computes the recovery, or fails when it does |
| `Collection.ClassAdCollection.OperateInRecoveryMode` | src/classad/collectionBase.cpp:237-377 | one log record |
| `Collection.ClassAdCollection.PlayClassAdOp` | src/classad/collectionBase.cpp:613-850 | one operation on the table and the views; a failure changes nothing |
| `Collection.ClassAdCollection.CommitXaction` | src/classad/transaction.cpp:86-173 | play with backups, and undo from the first operation on after a failure |
| `Collection.ClassAdCollection.Operate` | src/classad/collectionBase.cpp:1146-1342 | an operation is noted in the current transaction, or played and logged |
| `Collection.ClassAdCollection.OpenTransaction` | src/classad/collectionBase.cpp:1378-1402 | a transaction opens under a name that the table does not hold, and becomes the current one |
| `Collection.ClassAdCollection.SetCurrentTransaction` | src/classad/collection.cpp:309-317 | only an open transaction, or none, becomes the current one |
| `Collection.ClassAdCollection.CloseTransaction` | src/classad/collectionBase.cpp:1406-1441 | abort or commit; what is logged is what the run says |
| `Collection.ClassAdCollection.CreateSubView` | src/classad/collectionBase.cpp:857-868 | the view is logged first and then created |
| `StorageFile.Run` | src/classad/indexfile.cpp:128-234 | after any run of writes and deletions the file and its index hold what a map holds, every key's line is read back at its offset, and a scan of the file finds the same index |
| `StorageFile.ReadBackIff` | src/classad/indexfile.cpp:129-155 | an ad written at the end is read back if and only if it holds no newline and does not begin with a star |
| `StorageFile.RescanRebuilds` | src/classad/collectionBase.cpp:1829-1858 | the scan of a file rebuilds the index of its live lines |
| `StorageFile.IndexFile.WriteBack` | src/classad/indexfile.cpp:173-186 | whatever text is written: it is read back if and only if it holds no newline and does not begin with a star, other keys keep their text, and a live line that names its key is stored under it |
| `StorageFile.IndexFile.DeleteFromStorageFile` | src/classad/indexfile.cpp:201-234 | the key is gone and every other key keeps its text |
| `StorageFile.IndexFile.GetClassadFromFile` | src/classad/indexfile.cpp:129-155 | what is read at an offset |
| `StorageFile.IndexFile.BuildIndex` | src/classad/collectionBase.cpp:100-108 | the start-up scan; on a file that this object left it gives the same index |
| `StorageFile.IndexFile.TruncateStorageFile` | src/classad/indexfile.cpp:45-102 | into any temporary file: the copied lines, in the order of their keys, with the rewritten offsets represent the same map; the object that goes on with its old file reads every key rightly if and only if the copied lines begin that file, which is if and only if its live lines came first in the order of their keys |
| `StorageFile.RestartAfterTruncationIff` | src/classad/indexfile.cpp:45-102 | into a temporary file that held lines: a restart finds the rewritten index if and only if there were none, or nothing was copied and none of them is live |
| `StorageFile.ServedIffPrefix` | src/classad/indexfile.cpp:78-102 | for any file and any copied live lines: all of them are read in the old file at their new offsets if and only if the old file begins with them |
| `StorageFile.PrefixIffLiveFirst` | src/classad/indexfile.cpp:45-102 | the old file begins with the copied lines if and only if its live lines come first, in the order of their keys |
| `StorageFile.OldFileServesIff` | src/classad/indexfile.cpp:45-102 | so the object that compacted its file reads every stored text at the new offsets if and only if that held of its file before |
| `StorageFile.OldFileAfterTruncation` | src/classad/indexfile.cpp:78-102 | an input: an ad replaced by another; both files hold the same map under their own offsets, and at the new offset the old file gives nothing |
| `AdCache.CacheIsInvisible` | src/classad/collectionBase.cpp:1052-1374 | over any run of direct operations with any eviction victims the visible content is that of a plain map, every clean cached ad has an identical stored copy, and the count is the size of the table and within the limit |
| `AdCache.VictimExists` | src/classad/collectionBase.cpp:1904-1920 | no operation of such a run lacks a victim |
| `AdCache.FailedAddition` | src/classad/collectionBase.cpp:1082-1135 | what a failed addition shows; it leaves the visible content as it was if and only if the key's ad was in the table or there was none, and the count right if and only if it was a view that refused |
| `AdCache.StuckAddition` | src/classad/collectionBase.cpp:1867-1901 | an addition looks for a victim in an empty table if and only if the limit is 1, the key's ad was in the table and the log cannot be written |
| `AdCache.FullOfNothing` | src/classad/collectionBase.cpp:1102-1135 | after as many unlogged additions as the limit the count is full, the table empty, and there is no victim |
| `AdCache.UnmarkedSurvivesIff` | src/classad/collectionBase.cpp:1066-1100 | adding the object that is in the table itself survives eviction if and only if the key was dirty or the stored copy is the same |
| `AdCache.FailedChange` | src/classad/collectionBase.cpp:1187-1205 | a change that fails is seen all the same; if it was a view that refused, it survives eviction if and only if the key was dirty or the stored copy is the same |
| `AdCache.SameErased` | src/classad/collectionBase.cpp:1096-1112 | the object of the table added again, without a log: it is erased, what is stored shows through, and the count is one too high |
| `AdCache.LogReplaysIff` | src/classad/collectionBase.cpp:1282-1342 | for any run with any victims: its log is replayed without an error if and only if every removal named a key that the log held; the table it gives then holds every visible ad with its value, and nothing else if and only if the log holds no other key |
| `AdCache.CachedRemovalsReplay` | src/classad/collectionBase.cpp:1282-1342 | if every removal names an ad that is in the table, the log gives exactly the visible content |
| `AdCache.AbsentRemovalBreaksLog` | src/classad/collectionBase.cpp:1305-1340 | an input: the removal of an ad that is nowhere succeeds and makes the log unreadable |
| `CacheViews.AlwaysCurrentIff` | src/classad/collectionBase.cpp:1052-1342 | over any run with any victims every view is at all times what a recomputation from the visible ads gives, if and only if no operation replaces or removes an ad that a view holds and only the storage file has, and no change erases another member of undefined rank |
| `CacheViews.RemovalCurrentIff` | src/classad/collectionBase.cpp:1305-1327 | a removal keeps the views current if and only if the ad was in the table or no view held it |
| `CacheViews.AdditionCurrentIff` | src/classad/collectionBase.cpp:1066-1135 | when an addition leaves the views current: done, refused by a view, or not logged; the old ad that is put back after a failure is not put back into the views |
| `CacheViews.UncachedFailure` | src/classad/collectionBase.cpp:1082-1135 | with the cache off a failed addition restores the table, and leaves the views current if and only if none of them held the key |
| `CacheViews.RemovedAdStays` | src/classad/collectionBase.cpp:1305-1327 | an input: an ad that was swapped out and removed stays in the view |
| `CachedCollection.AdFile.Read` | src/classad/collectionBase.cpp:1721-1760 | a stored ad is found, read, parsed and checked against its key |
| `CachedCollection.ClassAdCollection.MaybeSwapOutClassAd` | src/classad/collectionBase.cpp:1867-1901 | a full table writes its victim back if that is dirty, and drops it |
| `CachedCollection.ClassAdCollection.SwitchInClassAd` | src/classad/collectionBase.cpp:1694-1762 | room is made and the stored ad comes in, clean |
| `CachedCollection.ClassAdCollection.GetClassAd` | src/classad/collectionBase.cpp:1346-1374 | the visible ad, whether cached or stored |
| `CachedCollection.ClassAdCollection.AddClassAd` | src/classad/collectionBase.cpp:1052-1143 | the addition with its three outcomes, and when it is stuck for want of a victim |
| `CachedCollection.ClassAdCollection.AddSameClassAd` | src/classad/collectionBase.cpp:1066-1112 | the object of the table added again: the table has the changed ad without a dirty mark, or has lost it if the log could not be written |
| `CachedCollection.ClassAdCollection.UpdateClassAd` | src/classad/collectionBase.cpp:1146-1210 | the change is seen if and only if there is a visible ad, whether or not a view refuses it or the log write fails; it is logged if neither happens; the object stays consistent if and only if the changed ad is marked dirty or was not refused |
| `CachedCollection.ClassAdCollection.ModifyClassAd` | src/classad/collectionBase.cpp:1214-1278 | the same with the other kind of change |
| `CachedCollection.ClassAdCollection.RemoveClassAd` | src/classad/collectionBase.cpp:1282-1342 | the removal, also when the log write fails; of an ad that is only stored it is not logged |
| `CcbTables.NextFreeId` | src/ccb/ccb_server.cpp:737-763 | with a wrapping counter the loop ends within held ids + 1 tries, at the first id from the counter on that is not held |
| `CcbServer.CCBServer.AddTarget` | src/ccb/ccb_server.cpp:737-778 | the new id is the first one from the counter on that no live target and no reconnect record holds, and the counter is its successor; tables, records and file agree after |
| `CcbServer.CCBServer.RemoveTarget` | src/ccb/ccb_server.cpp:781-808 | the target and exactly its requests are gone |
| `CcbServer.CCBServer.AddRequest` | src/ccb/ccb_server.cpp:811-846 | the new id is the first one from the counter on that no live request holds, and the counter is its successor; global and per-target tables stay inverse |
| `CcbServer.CCBServer.RemoveRequest` | src/ccb/ccb_server.cpp:858-882 | exactly that request is gone, from the global table and from its target's |
| `CcbServer.CCBServer.ReconnectTarget` | src/ccb/ccb_server.cpp:677-734 | a daemon gets its id back if and only if ip and cookie agree with its record |
| `CcbServer.OwnCredentials` | src/ccb/ccb_server.cpp:677-734 | the record made at a registration entitles exactly those with its ip and its cookie |
| `CcbServer.CCBServer.HandleRegistration` | src/ccb/ccb_server.cpp:238-313 | registration with or without reconnect, and with a reply that fails; a daemon with the ip and the cookie of its record has its own id back, any other one the counter's next |
| `CcbServer.CCBServer.HandleRequest` | src/ccb/ccb_server.cpp:326-418 | a request is given the counter's next id and forwarded to the daemon registered under the id it names, or answered with a failure |
| `CcbServer.CCBServer.HandleRequestResultsMsg` | src/ccb/ccb_server.cpp:429-541 | a client hears of a result only if it names the request and carries its connect id; other messages drop the target |
| `CcbServer.CCBServer.HandleRequestDisconnect` | src/ccb/ccb_server.cpp:849-855 | a client that hangs up takes exactly its request with it |
| `CcbServer.CCBServer.PollSockets` | src/ccb/ccb_server.cpp:216-235 | every target is read once, in some order, if it is still registered then and has something to say; a result that a target has for a request of its own is passed on to the client, and the request is gone; which targets leave; the closing sweep |
| `CcbServer.RequestAnswered` | src/ccb/ccb_server.cpp:216-235 | in whatever order the targets are read, a request whose target has its result, and which no other message names, is answered |
| `CcbServer.OnlyReplies` | src/ccb/ccb_server.cpp:429-541 | nothing else is sent: the messages are one reply each to different requests, relayed from a result that names the request with its connect id, and these requests are gone |
| `CcbServer.RequestStays` | src/ccb/ccb_server.cpp:429-541 | a request that no message names and whose target says nothing stays |
| `CcbServer.CCBServer.SaveReconnectInfo` | src/ccb/ccb_server.cpp:1112-1136 | the appended line replays to the record |
| `CcbServer.CCBServer.SaveAllReconnectInfo` | src/ccb/ccb_server.cpp:1139-1179 | a rewrite of which any number of writes succeed: the file replays to the records in memory if and only if no `.new` file was left over or every id in it is still held; an aborted rewrite leaves the old file and a `.new` file with the records written so far |
| `CcbServer.CCBServer.LoadReconnectInfo` | src/ccb/ccb_server.cpp:1069-1109 | after a reload the file replays to the records in memory, each alive as of the reload, and without counter overflow the next id is a hundred or a hundred and one past the greater of the former one and the greatest loaded one |
| `CcbServer.CCBServer.SweepReconnectInfo` | src/ccb/ccb_server.cpp:1182-1226 | what expires; the files are rewritten if and only if something does; registered targets keep their records if and only if the interval allows a record that was marked just now; what the file holds, also when the rewrite fails |
| `CcbProtocol.AcceptedConnectionWasRequested` | src/ccb/ccb_client.cpp:341-404 | in every run a client accepts a connection only from a daemon that wrote the hello after the server had forwarded that client's own request to it, while it was registered under an id the client asked for |
| `CcbProtocol.SuccessReplyAfterHello` | src/ccb/ccb_listener.cpp:497-572 | a success reply comes only after that daemon's hello and its later report, in this order |
| `CcbProtocol.ReplyIsFromItsTargetIff` | src/ccb/ccb_server.cpp:429-541 | in every run, the request that a reply answers had gone to the daemon whose result is relayed if and only if that daemon is, at the reply, the one registered under the id that the request asks for, which the server does not test |
| `CcbProtocol.SuccessReplyIsForThatRequest` | src/ccb/ccb_server.cpp:429-541 | without reuse of request ids the request answered is the very one the daemon was sent |
| `CcbProtocol.CountedIdsAreFresh` | src/ccb/ccb_server.cpp:811-846 | ids drawn from the counter are not reused in a run without a restart of the server |
| `CcbProtocol.ReusedIdMisattributes` | src/ccb/ccb_server.cpp:429-541 | a run in which the server restarts, so that the counter begins again, and relays an old result as the reply to a new request: the sender is not its target |
| `CcbProtocol.DistinctConnectIds` | src/ccb/ccb_client.cpp:41-70 | distinct clients keep distinct connect ids in every run |
| `CcbProtocol.StrangerIsNotAccepted` | src/ccb/ccb_client.cpp:747-778 | a connect id that a stranger has used is not drawn by a later client |
| `CcbProtocol.RequestCanSucceed` | src/ccb/ccb_client.cpp:747-778 | any run with a client and a registered daemon can go on so that the client accepts that daemon's connection and then hears of the success |
| `CcbProtocol.RequestCanFail` | src/ccb/ccb_listener.cpp:497-572 | or so that it hears of the failure |
| `CcbRefinement.Registration` | src/ccb/ccb_server.cpp:238-313 | a server that is in step with a run stays so: its registration handler takes steps of the protocol |
| `CcbRefinement.ClientRequest` | src/ccb/ccb_server.cpp:326-418 | its request handler draws the id that the run's counter gives and forwards the request or turns it away, or changes nothing; what it writes is the message of that step |
| `CcbRefinement.TargetMessage` | src/ccb/ccb_server.cpp:429-541 | its result handler takes at most one step: the target leaves, a request is forgotten, or a result is passed on; it writes a reply in the last case only, with the result's own verdict |
| `CcbRefinement.Poll` | src/ccb/ccb_server.cpp:216-235 | polling is a run of such steps, and what it writes are their messages |
| `CcbRefinement.RequestDisconnect` | src/ccb/ccb_server.cpp:849-855 | a client that hangs up has its request forgotten |
| `CcbRefinement.OthersKeep` | src/ccb/ccb_server.cpp:811-846 | steps of clients, daemons and strangers leave the server in step |
| `CcbRefinement.RequestIdsAreFresh` | src/ccb/ccb_server.cpp:811-846 | a server's request ids are fresh in every run without a restart in which its counter does not come round |
| `CcbRefinement.RepliesAnswerTheirRequests` | src/ccb/ccb_server.cpp:429-541 | so in such a run every success reply answers the very request that the connecting daemon was sent |
| `CcbRefinement.Restart` | src/ccb/ccb_server.cpp:1069-1109 | a server started anew from its reconnect file is where the protocol's restart leads any run, with its request counter at 1 |
| `CcbClient.CCBClient.Run` | src/ccb/ccb_client.cpp:482-827 | in every run with well-formed contacts the completion handler is called at most once, exactly when the operation ends, the target socket is handed a connection exactly if the event that ends it is the arrival of one, no contact is asked twice, the client waits exactly while its socket is set, and it is released exactly when it has completed |
| `CcbClient.CCBClient.ReverseConnectCallback` | src/ccb/ccb_client.cpp:781-827 | the socket takes over the connection it is given and its reference goes first; no field is touched after the release, and the last step releases the client if and only if no callback further out holds a reference |
| `CcbClient.CCBClient.ReleasedIffCompleted` | src/ccb/ccb_client.cpp:653-744 | between callbacks the client is released if and only if it has completed, and then no event can reach it |
| `CcbClient.CCBClient.TryNextCcb` | src/ccb/ccb_client.cpp:482-591 | the request goes to the first broker that can be asked; without one the operation ends; an ASSERT fails if and only if a malformed contact is reached; the result is true if and only if the socket pair for the very next broker could be made |
| `CcbClient.CCBClient.ReverseConnect` | src/ccb/ccb_client.cpp:85-104 | starting: the result says whether the operation is under way if and only if the first request does not fail at once, or its failure is that of the socket pair exactly when all later ones fail too |
| `CcbClient.CCBClient.CCBResultsCallback` | src/ccb/ccb_client.cpp:602-650 | a failure goes on to the next broker; the callback's own reference goes last |
| `CcbClient.CCBClient.ReverseConnectCommandHandler` | src/ccb/ccb_client.cpp:747-778 | an arriving connection finds a waiting client and completes it |

## Findings

Properties that the proofs show not to hold of the code, each with an input or an exact condition.

- A failed commit whose operations name a key twice: the undo runs from the first operation on, so
  it leaves an intermediate ad, or follows an end iterator (`AdStore.FailedCommitRestoresIff`,
  `RepeatedKeyIsNotRestored`, `RepeatedKeyBreaksUndo`).
- A committed transaction's name stays in the transaction table during recovery, so a log with two
  committed transactions of one name cannot be read again; nor can a log of a view that could not
  be created, which is logged all the same (`AdLog.RecoversIff`, `ReusedNameFailsRecovery`).
- Members of undefined rank are not separated by key, so erasing one by value erases all of them
  (`Views.ModifiedCurrentIff`, `RankChangeDropsMember`).
- A log whose last record was torn is read without an error, and the next record is written behind
  the torn one on its line: it is lost, and so is all that follows if the line is then no ad
  (`LogText.AppendedSurvivesIff`, `RestartForgets`, `NewlineLost`, `TornRecordExample`).
- A restart from a dump reverses the order of sibling views, which shows if and only if some view
  has two children (`ViewDump.DumpRecovers`, `SameOrderIff`).
- The mixed-split case of `combine` drops the second constant (`MixedSplits.MixedPreservedIff`).
- A conditional whose selector is known to be undefined is not folded, and keeps its references to
  known attributes even where they are to be inlined (`Residuals.ConditionalFoldsIff`,
  `UndefinedSelectorStays`).
- `x || true` is folded even where x evaluates to an error (`Flatten.AbsorbedOperandPreservedIff`).
- A second TRUE stored in one cell is counted twice, and a withdrawn TRUE is never subtracted
  (`BoolTables.TotalsAfterRun`, `RepeatedTrueMisleads`).
- `absTime("...")` and `relTime("...")` become literals while parsing, so these calls are not given
  back by printing and parsing (`Parser.TimeCallNotGivenBack`, `ParseOfPrinted`).
- Compaction of the storage file into a temporary file that was left over appends to it
  (`StorageFile.RestartAfterTruncationIff`). The object that compacted its file keeps reading the
  old one at the new offsets, which is right if and only if the live lines came first in it, in
  the order of their keys (`OldFileServesIff`, with the input `OldFileAfterTruncation`).
- With the cache on, a failed addition of an ad that is only stored loses it; a failed log write
  leaves the count one too high for good, and enough of them leave a full count without a victim
  (`AdCache.FailedAddition`, `FullOfNothing`); with a limit of one the undoing of the addition
  itself finds none (`StuckAddition`). An ad that its user changed in place and added again is not
  marked dirty (`UnmarkedSurvivesIff`), nor is one whose change a view refused (`FailedChange`).
- The removal of an ad that is only stored is not logged, so the log brings it back; the removal of
  an ad that is nowhere is logged, and the log cannot be replayed (`AdCache.LogReplaysIff`,
  `AbsentRemovalBreaksLog`).
- The views are not told when an ad that is only stored is replaced or removed, and an ad that is
  put back after a failed addition is not put back into them (`CacheViews.AlwaysCurrentIff`,
  `AdditionCurrentIff`, `UncachedFailure`, with the input `RemovedAdStays`).
- A `.new` reconnect file left over from an aborted rewrite is appended to
  (`CcbServer.CCBServer.SaveAllReconnectInfo`); a negative sweep interval expires the records of
  registered targets (`SweepReconnectInfo`).
- A result is relayed to the client of the pending request that has its id, whichever daemon sent
  it. The request had gone to that daemon if and only if the daemon is the one registered under the
  id that the request asks for (`CcbProtocol.ReplyIsFromItsTargetIff`), which the server does not
  test. It matters when request ids are reused, that is, after 2^64 requests or a restart of the
  server (`CountedIdsAreFresh`, with the input `ReusedIdMisattributes`).
- A malformed contact makes the client register twice and trips an ASSERT, and a failed socket pair
  makes the result of starting false although a later broker was asked
  (`CcbClient.CCBClient.TryNextCcb`, `ReverseConnect`).

## Left out

- Record literals in expressions: an ad's attributes are a hash table without regard to case, so
  their order in print is not that of the tree.
- Old-ClassAd syntax, XML, `PrettyPrint` with minimal parentheses, and the unquoted printing of
  identifiers: other formats with preconditions of their own.
- Lexing of numbers and operators: `- 3` and `-3` print alike, so the parser is modelled on tokens;
  only string literals are modelled down to characters, in the "C" locale.
- Conversion of absolute times (`mktime`, time zones) and `%02g` of fractional seconds: parameters.
- RelTimes.RelTimeToString: does not model the conversion to `int`, which is undefined from 2^31
  seconds on.
- Real numbers, strings, lists, ads and function calls in evaluation and flattening; shifts whose
  count is negative or not below 32 are undefined in the program, but for a negative word shifted
  to the right, and excluded by `Tame`. The quotient of -2^31 and -1, which traps, is taken to wrap around.
- MixedSplits.HarmlessPreservesMeaning: asks that logical operands are boolean or undefined (`Tame`);
  `AbsorbedOperandPreservedIff` says exactly what goes wrong without.
- MixedSplits.MixedPreservedIff: states the condition for a constant and an attribute on each side,
  MixedSplits.MixedTreesIff for any subtrees that take any values independently of each other; where
  the values of the subtrees depend on each other only "harmless is enough" is proved.
- View partitions, `SetViewInfo` and `DeleteView`.
- Collection.ViewsAfterRun: asks that each view ranks all ads or none; `ModifiedCurrentIff` says
  exactly when one modification is right without that.
- Syntax.ClassAdUnParser.Unparse: leaves out record literals, see above.
- Parser.ParseOfPrinted: leaves out record literals, see above.
- Parser.ClassAdParser.PrimaryExpression: leaves out record literals, see above.
- AdLog.PrefixRecovers: cuts the log between records; `LogText.CrashRecovers` cuts it anywhere.
- LogText.CrashRecovers: takes the printing and parsing of records as a parameter and asks of it
  that a record is printed on one line, read back whatever follows it there, and not read from a
  part of its text (`Kept`); that the texts of two records are not read as the second one (`Apart`)
  is asked by `AppendedSurvivesIff` alone.
- Collection.ClassAdCollection.Operate: all log writes succeed; `CacheViews.UncachedFailure` says
  what a failed addition does without the cache.
- Collection.ClassAdCollection.CloseTransaction: all log writes succeed; remote transactions and
  their acknowledgements are left out.
- CacheViews.AdditionCurrentIff: a view refuses an ad before any view has taken it; a child that
  refuses what an earlier sibling took is not modelled.
- RelTimes.MakeRelTime: does not model the overflow of `atoi` and `strtod` on long digit strings.
- The cache inside transactions, recovery and checkpoints, and `WriteCheckPoint`.
- StorageFile.IndexFile.WriteBack: writes succeed, and a crash between starring the old line and
  writing the new one is not modelled.
- Ownership and deletion of objects, but for the client's reference count.
- Sockets, timers, daemonCore, shared ports, heartbeats and the blocking client.
- The listener as an object: its steps are steps of the protocol, and a bounded number of pending
  reports is not modelled.
- CcbServer.CCBServer.PollSockets: what a socket delivers is fixed when polling begins.
