# A verified model of argp and four small cores of the GNU C Library

The project models the argument parser argp (its word-wrapping output stream, its help list and
its parser) and four self-contained pieces of the library: the condition-variable producer and
consumer of the lock benchmarks, the JSON writer of the benchmarks, the walk over ancillary data and
the inline binary search.  Code that updates objects or buffers in place is a class or a method with
loops, proved against specification functions; comparisons and macros are functions.  The theorems
are about the specification functions, for all inputs and all runs.

| file | what it is about |
|---|---|
| `Wrapping.dfy` | what the wrapping loop does to a text, as functions, and what it keeps |
| `FmtStream.dfy` | the stream object: buffer, cursors, flushing and growing |
| `Argp.dfy` | option tables and trees of argps |
| `Hol.dfy`, `HolPlaces.dfy` | the help list, its shared string of short options, and where its entries belong |
| `HolOrder.dfy`, `HolHeaders.dfy` | the order of the help list, and the headers of clusters |
| `Usage.dfy` | the loop that prints all usage patterns |
| `Convert.dfy`, `Dispatch.dfy`, `OptionMeaning.dfy` | the tables for getopt, their sizes, and what they mean |
| `Agreement.dfy` | the help list and the parser agree about short options |
| `Traces.dfy`, `Protocol.dfy` | which sequences of calls are possible, and whole runs of `argp_parse` with arbitrary parsers |
| `ProducerConsumer.dfy` | every interleaving of the two threads |
| `Json.dfy`, `JsonEmit.dfy`, `JsonRoundTrip.dfy` | JSON texts, the writer, and the round trip |
| `Cmsg.dfy` | ancillary data |
| `Bsearch.dfy` | binary search |
| `Options.dfy` | an optional value |

## Where the code does not do what it or its documentation says

The model follows the code.  Where a main promise fails, the inputs for which it fails are
characterised exactly.

- Word wrap does not always keep the text.  If a line is one unbroken word that ends at its newline
  exactly at the right margin, the scan for the end of the word starts behind the newline
  (argp/argp-fmtstream.c:246-250), and the first letter of the next line is overwritten.
  `Wrapping.ExactFitLosesALetter` is such an input, and `Wrapping.WrapConserves` shows that the words
  are kept if and only if no turn of the loop meets this case.
- If such a word is in the last line, or only an empty line follows it, the scan goes on behind the
  end of the text (argp/argp-fmtstream.c:246-263).  `Wrapping.LastWordFitsExactly` is such a text, and
  `Wrapping.StaysExact` shows that for complete lines these are exactly the texts that the functions
  of the model do not speak about.
- Lines that fit unchanged are shorter than the right margin, but a line that was folded may be
  exactly as wide as the right margin.  `Wrapping.WrapWidth` states when a line gets wider, and when
  the column remembered for the next call is wrong: the latter happens when the text ends in an
  overlong word (argp/argp-fmtstream.c:251-256).
- argp.h says that a parser that accepts the remaining arguments at once may take only some of them by
  changing the argument pointer.  The code sets the pointer to the end in every case
  (argp/argp.h:150-155, argp/argp-parse.c:691-695; `Protocols.Run.ParseArg`).
- argp.h says that after the error call no further calls are made.  The final call to every parser
  follows all the same (argp/argp.h:138-140, argp/argp-parse.c:644-646; `Protocols.ArgpParse`).
- Of two sibling clusters in the same group the one with the larger index comes first
  (argp/argp-help.c:695), and an entry without a short option compares lower than one with the same
  first letter as its short option (argp/argp-help.c:873), both contrary to the comments there.
- When clusters tie, a header can be printed twice.  `HolHeaders.TiedTreeRepeats` is a tree for which
  this happens: its first child and a child of its second child, which is in no cluster, both have
  index 0 and group 0.  `HolHeaders.RepeatsExactly` shows that for a given set of clusters no sorted
  list repeats a header if and only if no cluster with a header ties with another one.
- A short alias of a documentation option is shown by the help but passed over by the parser.  The
  letter then goes to nobody (`Agreements.DocAliasToNobody`), or to another argp than the one the help
  shows it under (`Agreements.DocAliasToAnother`).  `Agreements.HelpAndParserAgree` shows that a letter
  that is shown goes where it is shown if and only if some line of that argp's table makes it an
  option for the parser.
- From the 128th group on, the value of a long option no longer holds the number of its group in an
  int (argp/argp-parse.c:351-353); `Dispatches.ValRoundTrip` gives the exact bounds for groups and keys.
- The JSON writer does not escape strings and prints whatever text a double has.
  `JsonRoundTrip.RoundTrip` states that a document comes back, from a parser that knows all escapes,
  if and only if its strings need no escapes and its number texts are JSON numbers.

## Model

| member | source | states |
|---|---|---|
| `Wrapping.FoldIsLate` | argp/argp-fmtstream.c:162-266 | what a turn does, by the text alone: a line that fits is accepted; otherwise the break replaces the whole of the last run of blanks up to the margin, no blank is left before it, and a line that is one word up to the margin is broken at the first run of blanks after it, or left alone if there is none |
| `Wrapping.WrapConserves` | argp/argp-fmtstream.c:120-344 | the output is the input with blanks replaced by a newline and the wrap indent, and has the same words, if and only if no turn meets the exact fit |
| `Wrapping.ExactFitLosesALetter` | argp/argp-fmtstream.c:242-257 | a text of which a letter is lost |
| `Wrapping.WrapWidth` | argp/argp-fmtstream.c:120-344 | no line is wider than the right margin if and only if no turn leaves an overlong word; the remembered column is the real one if and only if the text does not end in an overlong word |
| `Wrapping.WordWrap` | argp/argp-fmtstream.c:120-344 | complete lines of words shorter than the space between the margins: same words and line breaks, continuation lines indented by the wrap margin, no line beyond the right margin, column 0 at the end |
| `Wrapping.ReadableExact` | argp/argp-fmtstream.c:219-266 | for complete lines, a turn looks only at the text unless a word fits exactly and at most one character follows its newline |
| `Wrapping.StaysExact` | argp/argp-fmtstream.c:120-344 | the same for all turns on a text of complete lines |
| `Wrapping.LastWordFitsExactly` | argp/argp-fmtstream.c:242-263 | a text of complete lines for which the scan goes on behind its end |
| `Wrapping.ShortLinesUntouched` | argp/argp-fmtstream.c:162-192 | text whose lines are all shorter than the right margin is left alone, and its column is counted right |
| `Wrapping.RefoldsWords` | argp/argp-fmtstream.c:219-333 | replacing blanks by line breaks and indents keeps the sequence of words |
| `FmtStreams.FmtStream.constructor` | argp/argp-fmtstream.c:56-87 | a new stream is empty, with its margins and its buffer |
| `FmtStreams.FmtStream.FindNewline` | argp/argp-fmtstream.c:162-163 | the first newline of the unscanned text |
| `FmtStreams.FmtStream.ScanBack` | argp/argp-fmtstream.c:228-230 | the last blank at or before the margin, or none |
| `FmtStreams.FmtStream.SwallowBack` | argp/argp-fmtstream.c:233-240 | the first blank of that run of blanks |
| `FmtStreams.FmtStream.ScanWord` | argp/argp-fmtstream.c:246-250 | the end of the overlong word, searched for without a look at the first character |
| `FmtStreams.FmtStream.SkipBlanks` | argp/argp-fmtstream.c:258-265 | the first character after the blanks that follow the word |
| `FmtStreams.FmtStream.FindBreak` | argp/argp-fmtstream.c:194-266 | where an overlong line is cut, or that it is left alone, is what the specification plans |
| `FmtStreams.FmtStream.BreakLine` | argp/argp-fmtstream.c:268-307 | stream and buffer together end in the first line and a newline, the rest of the text is kept, and either there is room for the indent or the buffer was flushed |
| `FmtStreams.FmtStream.IndentLine` | argp/argp-fmtstream.c:309-321 | stream and buffer together end in the wrap indent, and the rest of the text is untouched |
| `FmtStreams.FmtStream.CloseUp` | argp/argp-fmtstream.c:323-333 | the rest of the text follows immediately |
| `FmtStreams.FmtStream.FoldAt` | argp/argp-fmtstream.c:268-333 | the white space at the fold is replaced by a newline and the wrap indent, whether or not the buffer was flushed |
| `FmtStreams.FmtStream.Turn` | argp/argp-fmtstream.c:128-340 | a turn of the loop leads to the same final text and the unscanned text gets shorter |
| `FmtStreams.FmtStream.Update` | argp/argp-fmtstream.c:120-344 | stream and buffer together hold the settled text followed by the wrapped pending text, for any size of the buffer |
| `FmtStreams.FmtStream.Ensure` | argp/argp-fmtstream.c:349-397 | there is room afterwards; nothing changes if there was room before, and otherwise all pending text was wrapped and flushed |
| `FmtStreams.FmtStream.Write` | argp/argp-fmtstream.h:199-210 | the text is appended to what was written; settled output changes only by a flush |
| `FmtStreams.FmtStream.Puts` | argp/argp-fmtstream.h:212-223 | the string is appended to what was written |
| `FmtStreams.FmtStream.Putc` | argp/argp-fmtstream.h:225-232 | the character is appended to what was written |
| `FmtStreams.FmtStream.Point` | argp/argp-fmtstream.h:271-277 | nothing is pending afterwards; if all lines are short, the column is the number of characters since the last newline of everything written |
| `FmtStreams.FmtStream.Free` | argp/argp-fmtstream.c:97-110 | everything written arrives at the stream, refolded, unless an exact fit was met |
| `FmtStreams.FmtStream.Transparent` | argp/argp-fmtstream.h:199-277 | after any sequence of calls on text with short lines, stream and buffer hold exactly the concatenated text, wherever flushes and growth fell |
| `FmtStreams.FmtStream.Conserved` | argp/argp-fmtstream.c:120-397 | after any sequence of calls without an exact fit, the output is the whole text refolded, with the same words |
| `Hols.FirstsDistinct` | argp/argp-help.c:448-497 | the string of first occurrences has no letter twice |
| `Hols.DecodeExact` | argp/argp-help.c:553-576 | decoding any stretch of the options at its position finds exactly the first occurrences |
| `Hols.FlatListing` | argp/argp-help.c:1014-1034 | the entries hold the options of the tree in preorder |
| `Hols.Hol.AddLetters` | argp/argp-help.c:488-496 | the letters of an option and its aliases that are new are added, in order |
| `Hols.Hol.Make` | argp/argp-help.c:433-502 | the entries of one argp, their positions, and the letters of its first occurrences |
| `Hols.Hol.MergeLetters` | argp/argp-help.c:983-996 | of the letters of an appended entry exactly those neither list had before are kept |
| `Hols.Hol.Append` | argp/argp-help.c:920-1009 | a merged list is built as if its items had been one list from the start |
| `Hols.ArgpHol` | argp/argp-help.c:1014-1034 | the list of a whole tree is well built |
| `Hols.ShortIterate` | argp/argp-help.c:553-576 | which options of an entry are valid short options |
| `Hols.ShadowingExact` | argp/argp-help.c:433-1034 | for every tree: the string of letters is that of the first occurrences in preorder without duplicates, and an entry's option decodes as valid if and only if it is a first occurrence |
| `HolPlaces.ClustersFollowTree` | argp/argp-help.c:1014-1034 | for every entry there is a way from the root to its argp such that its cluster has the place, group, header and index of the last child on the way that has a group or a header, inside the cluster of the one before it, and there is no cluster without such a child |
| `HolPlaces.ClusterMarked` | argp/argp-help.c:1022-1028 | an entry has a cluster if and only if a child on its way has a group or a header, and it is that of the last one |
| `HolPlaces.ItemsShape` | argp/argp-help.c:470-496 | an entry is a line of the table that is no alias and all the aliases after it |
| `HolPlaces.GroupsCounted` | argp/argp-help.c:479-484 | the group of an entry is the group given last in the table, or 0, and one more for each heading since |
| `HolOrder.GroupLex` | argp/argp-help.c:672-679 | groups are ordered 0, 1, 2, ..., -2, -1 |
| `HolOrder.CousinLex` | argp/argp-help.c:685-720 | for clusters of equal depth the comparison has the sign of the lexicographic order of the ways from the root |
| `HolOrder.Lift` | argp/argp-help.c:728-751 | the loop finds the ancestor at a given depth, which lies on the cluster's way |
| `HolOrder.ClusterCmpLex` | argp/argp-help.c:725-755 | for clusters of any depths the comparison has the sign of the prefix-first lexicographic order of the ways from the root |
| `HolOrder.ClusterBase` | argp/argp-help.c:759-765 | the ancestor just below the root |
| `HolOrder.CanonDocOption` | argp/argp-help.c:770-790 | the canonical tail of a documentation name, and whether it is no option |
| `HolOrder.EntryFirstLong` | argp/argp-help.c:622-631 | the first visible long name |
| `HolOrder.EntryFirstShort` | argp/argp-help.c:605-619 | the first valid visible short option |
| `HolOrder.LookAt` | argp/argp-help.c:834-857 | what the comparison of names and letters reads from an entry |
| `HolOrder.FaceCmpLex` | argp/argp-help.c:827-893 | the case-folded comparison of names and letters has the sign of the order of their codes |
| `HolOrder.EntryCmpLex` | argp/argp-help.c:796-895 | the comparison of entries has the sign of the lexicographic order of their keys |
| `HolOrder.TotalPreorder` | argp/argp-help.c:792-895 | for any three entries the results of the comparison are opposite in sign when swapped, and transitive, ties included |
| `HolOrder.OrderByGroup` | argp/argp-help.c:803-826 | entries in no cluster are ordered by their groups, entries in clusters by those of the outermost clusters, groups that are not negative first; at equal groups an entry in no cluster comes first |
| `HolOrder.OrderWithinCluster` | argp/argp-help.c:828-832 | entries of one cluster are ordered by their groups |
| `HolOrder.OrderOfSiblings` | argp/argp-help.c:685-755 | of two clusters inside the same one, everything in the one with the earlier group, or with the larger index, comes first |
| `HolOrder.LettersOrdered` | argp/argp-help.c:850-868 | letters are in alphabetical order whatever their case, and a lower-case letter comes before its capital |
| `HolOrder.FacesOrdered` | argp/argp-help.c:836-891 | documentation that does not look like an option comes last; of two entries with the same first character the one without a short option comes first, and two without are ordered by name |
| `HolOrder.CaseCmpSame` | argp/argp-help.c:884-889 | names compare equal if and only if they differ only in the case of letters |
| `HolOrder.FirstLongFirst` | argp/argp-help.c:622-631 | the name taken is that of the first option with a name that is not hidden |
| `HolOrder.FirstShortFirst` | argp/argp-help.c:605-619 | the letter taken is that of the first valid option that is not hidden |
| `HolOrder.DocNames` | argp/argp-help.c:770-790 | a documentation name looks like an option if and only if its first character after white space is a dash, and is sorted from its first letter or digit on |
| `HolHeaders.SwitchesExact` | argp/argp-help.c:1222-1303 | an entry shows options if and only if one that is not hidden has a name or a valid letter |
| `HolHeaders.Contiguous` | argp/argp-help.c:907-913 | in a sorted list, between two entries of a cluster that does not tie, or of the clusters inside it, there are only such entries |
| `HolHeaders.DistinctSiblingsUntied` | argp/argp-help.c:685-697 | if clusters with the same parent differ in group or index, no cluster ties |
| `HolHeaders.OwnEntriesFirst` | argp/argp-help.c:907-913 | a cluster's own entries come before those of the clusters inside it |
| `HolHeaders.IsChild` | argp/argp-help.c:1162-1167 | whether a cluster lies within another |
| `HolHeaders.EntryHelp` | argp/argp-help.c:1175-1332 | whether printing an entry announces its cluster, and which entry was printed last |
| `HolHeaders.HolHelp` | argp/argp-help.c:1335-1346 | the headers printed for a whole list |
| `HolHeaders.AnnouncesOpens` | argp/argp-help.c:1175-1206 | in a sorted list in which no cluster with a header ties, looking at the entry printed before is as good as looking at all entries before |
| `HolHeaders.HeadersOnce` | argp/argp-help.c:1162-1345 | in a sorted list in which no cluster with a header ties, each header is printed at most once, and exactly for the clusters that have a header and a shown entry of their own that comes before any other of the cluster |
| `HolHeaders.RepeatsExactly` | argp/argp-help.c:1162-1345 | for every set of clusters: no sorted list of their entries repeats a header if and only if no cluster with a header ties with another one |
| `HolHeaders.TiedTreeRepeats` | argp/argp-help.c:1014-1034 | a tree whose sorted help list prints a header twice |
| `Usages.Pick` | argp/argp-help.c:1517-1530 | alternative number `level` of an argument string, and whether there is a further one |
| `Usages.OwnUsage` | argp/argp-help.c:1511-1537 | the part of the pattern an argp prints itself, and whether it has a further alternative |
| `Usages.SplitIntoLines` | argp/argp-help.c:1517-1530 | the alternatives joined by newlines give the argument string back |
| `Usages.ValueInjective` | argp/argp-help.c:1507-1560 | different settings of the levels show different numbers |
| `Usages.ChildrenUsage` | argp/argp-help.c:1541-1543 | the children print their part and turn their levels as a counter does, within their slice of the vector |
| `Usages.ArgsUsage` | argp/argp-help.c:1507-1560 | the pattern shown is printed, the levels advance by one or wrap to zero, the result says which, and nothing outside the slice changes |
| `Usages.ArgsLevels` | argp/argp-help.c:1486-1501 | the number of levels of a tree |
| `Usages.UsagePatterns` | argp/argp-help.c:1699-1748 | the loop ends after exactly the product of the numbers of alternatives; its patterns are all ways to choose one line of each argument string of the tree, in the order of the tree, each choice under one number and every number that of a choice; all levels are zero at the end |
| `Converts.CalcSizes` | argp/argp-parse.c:439-463 | the sums over all argps of the tree |
| `Converts.GroupsAreNodes` | argp/argp-parse.c:297-396 | the groups are the argps with options or a parser, in preorder |
| `Converts.SizesSuffice` | argp/argp-parse.c:439-484 | the tables fit into the storage that was computed without looking at them, and the number of groups is exact |
| `Converts.Parser.constructor` | argp/argp-parse.c:467-500 | storage of the computed sizes, holding empty tables |
| `Converts.Parser.FindLongOption` | argp/argp-parse.c:184-197 | the place of a name in the table, or that it has none |
| `Converts.Parser.ConvertLine` | argp/argp-parse.c:313-358 | what one line of an options table adds to the short and long options |
| `Converts.Parser.ConvertTable` | argp/argp-parse.c:310-359 | what a whole table adds |
| `Converts.Parser.ConvertGroup` | argp/argp-parse.c:306-383 | the options and then the group are added; the group takes its slice of the child inputs |
| `Converts.Parser.ConvertOptions` | argp/argp-parse.c:297-396 | an argp and the tree below it: the tables of its groups, within the room left for them |
| `Converts.Parser.ConvertChildren` | argp/argp-parse.c:386-393 | the children of an argp, in order |
| `Converts.ParserConvert` | argp/argp-parse.c:399-500 | for every tree, or none, the two passes together fill the storage with exactly the tables, terminators included, and one group for each |
| `OptionMeanings.GroupsExact` | argp/argp-parse.c:306-383 | exactly the argps with options or a parser have a group |
| `OptionMeanings.ParentsFollowTree` | argp/argp-parse.c:297-396 | every group was made for an argp on some way from the root, with the last number of the way as its index and, as its parent, the group of the argp before it on the way if that has one |
| `OptionMeanings.ShortModes` | argp/argp-parse.c:318-332 | getopt reads of every letter whether it takes an argument, as the line of the group it goes to says, or the line that one is an alias of |
| `OptionMeanings.LongDelivers` | argp/argp-parse.c:333-357 | the first line with a name is in the long options with its way to take an argument and a value that is decoded to its group and its own key, or the key of the line it is an alias of |
| `Dispatches.ChildSlots` | argp/argp-parse.c:370-381 | the slice of child inputs of every group is inside the storage and disjoint from those of other groups |
| `Dispatches.ChildInputs` | argp/argp-parse.c:518-524 | a parent comes before its child, and the lookup of a child's input is in bounds and belongs to that child |
| `Dispatches.LongTableExact` | argp/argp-parse.c:333-357 | names are unique, every entry comes from the first option of the tree with its name, and no named option is missing |
| `Dispatches.ValRoundTrip` | argp/argp-parse.c:333-357 | the group can be recovered from the value if and only if it is one of the first 127, and the key if and only if it is in [-2^23, 2^23); the values of these groups are no short option, argument or end mark |
| `Dispatches.DispatchShort` | argp/argp-parse.c:718-736 | the loop finds the group by the position of the letter |
| `Dispatches.ShortGroupIsFirst` | argp/argp-parse.c:718-736 | the group found is the first in preorder with an option that takes the letter; none is found if and only if there is none |
| `Agreements.HelpAndParserAgree` | argp/argp-parse.c:720-736 | for every tree: the letter an entry shows as valid is dispatched to the group of the entry's argp if and only if a line of that argp's table makes it an option for the parser, and otherwise to a later group or to none |
| `Agreements.PlainTreesAgree` | argp/argp-parse.c:720-736 | in a tree without short aliases of documentation options every letter goes where it is shown |
| `Agreements.ShownExactlyOnce` | argp/argp-help.c:918-1034 | every letter the parser dispatches is shown as valid by one option of one entry, and by no other |
| `Agreements.DocAliasShownNotParsed` | argp/argp-parse.c:313-332 | whatever else a tree holds, a short alias of a documentation option at its root is shown there and not dispatched there |
| `Agreements.DocAliasToNobody` | argp/argp-parse.c:313-332 | such a letter that is dispatched to nobody |
| `Agreements.DocAliasToAnother` | argp/argp-parse.c:313-332 | such a letter that is dispatched to a child, under which the help does not show it |
| `Traces.LegalAt` | argp/argp-parse.c:661-861 | every event of a possible trace is a call that may be made there, with the argument pointer and count that the events before lead to, and has the answer that the parser or getopt gives there |
| `Traces.OptionsAnswered` | argp/argp-parse.c:712-746 | in a possible trace the option that getopt finds is the next call, to its own group, no parser is called for an option otherwise, and a wrong option ends the parse phase |
| `Traces.ArgumentsOffered` | argp/argp-parse.c:668-687 | in a possible trace a group is offered an argument only if no group before it has a parser, or after the group before it with a parser has declined |
| `Traces.LastFirstExact` | argp/argp-parse.c:586-589 | exactly the groups with a parser, in decreasing order |
| `Traces.FirstFirstExact` | argp/argp-parse.c:581-585 | exactly the groups with a parser that are meant, in increasing order |
| `Protocols.Run.GroupParse` | argp/argp-parse.c:232-248 | a call of a parser is recorded with its answer; a group without one understands nothing |
| `Protocols.Run.Begin` | argp/argp-parse.c:514-539 | every parser is called first, in order, up to the first failure |
| `Protocols.Run.OfferArg` | argp/argp-parse.c:668-686 | a group is offered the argument, and all the rest if it declines |
| `Protocols.Run.ParseArg` | argp/argp-parse.c:661-708 | every group with a parser is offered the argument, in order, until one accepts it; one that all decline is left in place; an accepted one is counted for its group, or the scan restarts if the pointer moved back |
| `Protocols.Run.ParseOpt` | argp/argp-parse.c:712-746 | only the option's own group is called |
| `Protocols.Run.TryGetopt` | argp/argp-parse.c:779-830 | exactly when getopt is called and with what, that its answer is taken over, and which call is due after it |
| `Protocols.Run.HandOver` | argp/argp-parse.c:851-857 | the call that is due is made, and no other |
| `Protocols.Run.ParseNext` | argp/argp-parse.c:776-861 | one turn: the calls that are due are made, a turn ends the parsing as a bad option if and only if its last event is one, where a declined argument is left, and that without getopt a turn that goes on consumes an argument |
| `Protocols.Run.ParseLoop` | argp/argp-parse.c:907-911 | the calls up to the first failure; if no parser lowers the pointer, then after the end of the options getopt is not called again and the loop ends within argc - next + 1 turns |
| `Protocols.Run.AllParsed` | argp/argp-parse.c:576-593 | every parser whose group processed no argument is told so, and then every parser is told of the end, last group first, up to the first failure |
| `Protocols.Run.Conclude` | argp/argp-parse.c:617-649 | success or error, never both, and then the final call to every parser, last group first |
| `Protocols.Run.Settle` | argp/argp-parse.c:571-612 | what the end of the parse loop means: when the parsers are told that all is parsed, and the index returned |
| `Protocols.Run.Finish` | argp/argp-parse.c:565-654 | the calls after the parse loop, in order, whom they reach, and the result |
| `Protocols.ArgpParse` | argp/argp-parse.c:868-916 | over every run, with any parsers: the trace is possible (see `Traces`), getopt's marks are respected, and if parsers leave the pointer alone the counts add up to the arguments consumed; over every run that comes to its end: the order of the phases, the final call to every parser exactly once, the first hard error as the result and otherwise failure exactly for a bad option or for arguments that cannot be returned, that all parsers are told exactly if all arguments are parsed, and the index returned |
| `ProducerConsumer.InvStep` | benchtests/bench-pthread-locks.c:342-401 | every step of every thread, and every spurious wakeup, keeps the invariant |
| `ProducerConsumer.InvRun` | benchtests/bench-pthread-locks.c:342-401 | every run keeps it |
| `ProducerConsumer.NoDeadlock` | benchtests/bench-pthread-locks.c:328-408 | in every reachable state at most one item is queued, produced minus consumed is what is queued, the threads are not both asleep, nobody sleeps when the other has finished, somebody can move or both are done, and at the end the queue is empty and all rounds were made |
| `ProducerConsumer.RunsEnd` | benchtests/bench-pthread-locks.c:342-401 | every run of n rounds ends within 14n + 4 steps and 3 more for each spurious wakeup |
| `Json.DecimalIsNumber` | benchtests/json-lib.c:103-127 | the text of an integer is a JSON number from which the integer can be read back |
| `JsonEmit.JsonCtx.constructor` | benchtests/json-lib.c:23-29 | the first state |
| `JsonEmit.JsonCtx.DoIndent` | benchtests/json-lib.c:31-40 | as many blanks as the level says are added, and nothing else |
| `JsonEmit.JsonCtx.DocumentBegin` | benchtests/json-lib.c:42-51 | the call's effect on level, bit and text |
| `JsonEmit.JsonCtx.DocumentEnd` | benchtests/json-lib.c:53-61 | the call's effect; the bit is left as it is |
| `JsonEmit.JsonCtx.AttrObjectBegin` | benchtests/json-lib.c:63-75 | the call's effect |
| `JsonEmit.JsonCtx.AttrObjectEnd` | benchtests/json-lib.c:77-88 | the call's effect |
| `JsonEmit.JsonCtx.AttrString` | benchtests/json-lib.c:90-101 | the call's effect |
| `JsonEmit.JsonCtx.AttrNumber` | benchtests/json-lib.c:129-140 | the call's effect for a given number text |
| `JsonEmit.JsonCtx.AttrInteger` | benchtests/json-lib.c:103-127 | the call's effect for the decimal text of the integer |
| `JsonEmit.JsonCtx.ArrayBegin` | benchtests/json-lib.c:142-154 | the call's effect |
| `JsonEmit.JsonCtx.ArrayEnd` | benchtests/json-lib.c:156-163 | the call's effect |
| `JsonEmit.JsonCtx.ElementString` | benchtests/json-lib.c:165-175 | the call's effect |
| `JsonEmit.JsonCtx.ElementNumber` | benchtests/json-lib.c:201-211 | the call's effect for a given number text |
| `JsonEmit.JsonCtx.ElementInteger` | benchtests/json-lib.c:177-199 | the call's effect for the decimal text of the integer |
| `JsonEmit.JsonCtx.ElementObjectBegin` | benchtests/json-lib.c:213-227 | the call's effect |
| `JsonEmit.JsonCtx.ElementObjectEnd` | benchtests/json-lib.c:229-240 | the call's effect |
| `JsonEmit.BitRefinesStack` | benchtests/json-lib.c:23-240 | on every sequence of calls, the one bit writes the same text as a writer that counts the elements of every open container |
| `JsonRoundTrip.WellNestedRefines` | benchtests/json-lib.c:23-240 | every well-nested sequence of calls is such a sequence |
| `JsonRoundTrip.DocumentWritten` | benchtests/json-lib.c:42-240 | the calls for a document write the document's text and restore the level |
| `JsonRoundTrip.DocumentRead` | benchtests/json-lib.c:42-240 | the parser reads that text as the document |
| `JsonRoundTrip.ValueCost` | benchtests/json-lib.c:90-101 | a text that parses to a value is never shorter than the value written plainly, white space aside, and if it is not longer either, it uses no escapes |
| `JsonRoundTrip.RoundTrip` | benchtests/json-lib.c:23-240 | a document written to any stream at any level parses back to itself, by a parser for the whole grammar with all escapes, if and only if its strings need no escapes and its number texts are JSON numbers |
| `JsonRoundTrip.SameDocument` | benchtests/json-lib.c:42-240 | different documents are written with different calls |
| `JsonRoundTrip.CallsRoundTrip` | benchtests/json-lib.c:23-240 | every well-nested sequence of calls describes exactly one document, to which the round trip applies |
| `Cmsg.Aligns` | bits/socket.h:240-252 | CMSG_ALIGN gives the next multiple of the word, padding makes up the difference, and CMSG_SPACE is the aligned CMSG_LEN |
| `Cmsg.NextHdrFits` | bits/socket.h:260-292 | a next header is returned if and only if the length covers a header and the whole message and one more header fit |
| `Cmsg.WalkSafe` | bits/socket.h:235-292 | whatever the buffer holds, every header visited lies in it and is aligned, starts where the message before it ends, and there is at most one for each 16 bytes |
| `Cmsg.WalkEnds` | bits/socket.h:260-292 | the walk stops only at a malformed header or for want of space |
| `Cmsg.MessageBack` | bits/socket.h:229-245 | a message laid out with the macros can be read back |
| `Cmsg.RoundTrip` | bits/socket.h:229-292 | a buffer laid out with the macros and followed by anything is walked back to exactly its messages if and only if the control length reaches past the last header and not past a further one |
| `Cmsg.SumIsRight` | bits/socket.h:240-245 | the sum of the CMSG_SPACE sizes is such a control length |
| `Bsearch.Search` | bits/stdlib-bsearch.h:19-50 | what is returned matches; on an array ordered as the standard asks something is returned if and only if something matches; the number of comparisons is at most the number of binary digits of the length, and equal to it when the key is below every element |
| `Bsearch.BitsIsLog` | bits/stdlib-bsearch.h:26-47 | that number is floor(log2 n) + 1 |

## Left out

- The stream with a left margin, with truncation instead of wrapping, and its margin setters: the margins are constants with 0 for the left one and a wrap margin below the right one.
- Text for which the wrapping loop would look at or behind its end: text without a final newline whose last line reaches the right margin in this way, and complete lines that `Wrapping.StaysExact` names.  What the loop does then depends on what an earlier use left in the buffer.  The methods require that the scan stays inside the text (`CanScan`), which `Wrapping.WordWrap` and `Wrapping.ShortLinesUntouched` establish for the texts they speak of.
- Formatted output, wide characters and errors of the underlying file: they belong to stdio.  Text is assumed to hold no NUL.
- Allocation failure and the freeing of storage.
- getopt itself, including the permutation of arguments and long-only matching: it is an arbitrary function of what happened before, of which only the range of its results is assumed.
- Translation, help filters, documentation text, program names, version hooks, locking and exiting.
- The reading of ARGP_HELP_FMT, the printing of single options, and `hol_usage`: they add only easy members.
- `hol_set_group` and the moving of the standard options to other groups.
- Converts.ParserConvert: with ARGP_NO_ARGS clear.
- Usages.UsagePatterns: for at most 128 alternatives in each argp, because a level is kept in a char, and without a help filter.
- HolOrder.GroupLex: groups are mathematical integers, so that their difference does not overflow.
- Protocols.Run.ParseLoop: takes the greatest number of turns as a parameter, because parsers that keep moving the pointer back can make the loop run forever; what is stated holds for every such number.
- Agreements.HelpAndParserAgree: for letters other than ':', '-' and '+', which mean something else to getopt.
- In the JSON parser, escapes for surrogates that are not paired: they stand for no character.
- JsonEmit.JsonCtx.AttrNumber: the text that `%g` gives a double is a parameter.
- JsonEmit.JsonCtx.DocumentEnd: and the other closing calls require an open container, because below 0 the level wraps around and the indentation buffer has no size.
- Ancillary data on machines with a four-byte `size_t` or big-endian fields.
- String, memory and lock benchmarks, byte swapping, device numbers and the other headers: measurement code, constants and bit shuffles.
