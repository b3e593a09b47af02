# Caddyfiles from labels: a verified model

This project models the Caddyfile tree pipeline of caddy-docker-proxy and two of its state machines in
Dafny, and proves what they are for.

A Caddyfile is a tree of blocks. Docker labels become such trees, trees from many sources are merged,
sorted and printed, the printed text is filtered through an adapter that may reject it, and the result
is pushed to servers. Names found on the way are published in a DNS zone.

| part | files | main results |
|---|---|---|
| text to tree and back | `Lexer`, `Lexical`, `Printer`, `Parser`, `Outlines`, `KeyLexing`, `RoundTrip`, `KeyExact`, `Layout`, `Misreading`, `TreeExact` | what is read from any text, said without a machine; which documents are read back from their printed text, exactly |
| sorting | `BlockOrder` | `compareBlocks` is a total order; two containers sort alike exactly when siblings were rearranged |
| merging | `Merging`, `MergeLaws` | when upstreams are conserved and which trees can stand in the middle of an associative merge, exactly |
| merging sites | `Components`, `Sites`, `Serving`, `SitesKeep` | the sites are the connected components of all sites under sharing an address, exactly when the base has them already |
| labels | `LabelPath`, `Labels`, `LabelCount`, `LabelNumbers`, `FromLabels` | the text does not depend on the order in which labels are read; one block for each path; numbered labels are printed in the order of their numbers |
| filtering | `Processing`, `Generating` | the output is accepted or empty; blocks lose exactly the keys that the adapter names, and what is dropped is logged |
| the same in place | `Nodes`, `MergeInPlace`, `SortInPlace`, `SitesInPlace`, `ProcessInPlace`, `GeneratingInPlace` | methods on mutable nodes compute what the functions on trees say |
| controller | `Throttle`, `Delivery` | no event is lost, however steps are delayed, and every fair execution goes on generating; servers never go back, and when a changed Caddyfile is sure to get to them, exactly |
| name publishing | `Technitium` | a run succeeds unless calls fail, leaves exactly the records that it should, and never touches records of others, wherever it is cut off |

Trees are values (`Tree.Block`) where a property is stated, and objects (`Nodes.Node`) where the program
changes them: each method on nodes is proved to compute the function on values, and the properties are
proved about that function. `dafny verify dfyconfig.toml` checks everything.

Some properties that one would expect are true of the code under conditions only:

- Not every document survives printing and reading. The printer escapes a backtick inside backticks,
  which the lexer does not understand; a run of backslashes of odd length at the end of a key swallows
  what follows; words that start like comments or quotations are read as such; empty keys and blocks
  without keys and children are printed as nothing. `TreeExact.ReadBackExact` gives the exact class of
  trees, and `TreeExact.KeySafeExact` what it means for a document of one key.
- Merging two proxy directives can change a matcher and lose an upstream. `Merging.CombineKeysExact`
  says exactly when, `Merging.MatcherCanChange` is an example, and `Merging.EntriesMerge` says it for
  whole trees.
- Merging is not associative for every tree in the middle. `MergeLaws.AssociativeExactly` says for which
  ones it is: those in which, at every level, a sibling that would be merged into an earlier one adds
  nothing to it. `MergeLaws.ThirdTreeMatters` shows that the third tree needs a condition as well, and
  `MergeLaws.SecondMatcherBreaks` that a second matcher does harm.
- Merging sites gives connected components, and every address what linked addresses have, exactly if
  this is so of the base alone: `Sites.ComponentsExactly` and `Serving.JoinedExactly`. A base whose sites
  have no address in common is one.

- A changed Caddyfile can miss a server until the next update, if a push that holds an older
  configuration is under way. `Delivery.DeliveredExactly` says when it gets there for sure.

## Model

| member | source | states |
|---|---|---|
| Lexer.Lexer.LoadInput | caddyfile/lexer.go:45-62 | an empty input is an error; otherwise one leading byte order mark is dropped and nothing else |
| Lexer.Lexer.Next | caddyfile/lexer.go:74-170 | the loop over characters computes `Run`: the same token, rest of the input, line and count of skipped lines, or no token |
| Lexer.StaleToken | caddyfile/lexer.go:74-170 | what the token field holds before a call of `next` has no influence on a token that is found |
| Lexer.AllTokens | caddyfile/marshal.go:163-175 | the tokens are those of repeated calls of `next`; only an empty input is an error |
| Lexical.TokensAre | caddyfile/lexer.go:74-170 | the tokens of every text are its words and quotations, cut out one after the other, comments left out: where each of them ends, what its value is and on which line it stands |
| Lexical.CommentLine | caddyfile/lexer.go:124-149 | a comment yields nothing and ends with its line; if it has a backslash, that line end is counted with a later one |
| Lexical.CommentAtEnd | caddyfile/lexer.go:144-149 | a comment on a last line without an end yields nothing either |
| Lexical.WordThenComment | caddyfile/lexer.go:124-168 | the same behind a word and a blank |
| Lexical.WordThenRest | caddyfile/lexer.go:124-168 | white space ends a word; a backslash before a line end puts off the counting of the line, and neither it nor a carriage return is part of the word |
| Lexical.SpaceThenRest | caddyfile/lexer.go:124-142 | white space in front of a token is skipped; a line end counts those that were escaped before it |
| Lexical.ContinuedLine | caddyfile/lexer.go:128-135 | words behind an escaped line end count as being on the line in front of it |
| Lexical.QuotedText | caddyfile/lexer.go:100-122 | a text whose quotation marks are escaped and that is put in quotes is read as it was, with its line ends counted, unless a backslash of its own would escape one of them |
| Printer.WriteKey | caddyfile/marshal.go:44-56 | appends the key in the quoting style that its characters call for |
| Printer.WriteKeys | caddyfile/marshal.go:38-59 | appends the keys of a block, separated by one space each |
| Printer.WriteBlock | caddyfile/marshal.go:36-69 | appends the block at its level of indentation |
| Printer.WriteForest | caddyfile/marshal.go:29-33 | appends the blocks one after the other |
| Printer.BlockLaidOut | caddyfile/marshal.go:36-69 | a block is its keys on a line, and its children in braces behind them, indented by a tab if no key has a line feed |
| Printer.MarshalCanonical | caddyfile/marshal.go:13-18 | containers that differ in the arrangement of siblings, at any level, are printed alike |
| Printer.OrdersNotPrinted | caddyfile/marshal.go:29-69 | replacing orders by sibling indices does not change what is printed |
| BlockOrder.StringsByFirstDifference | caddyfile/marshal.go:115-119 | strings are compared by their first difference, and a proper beginning comes first |
| BlockOrder.RankExactly | caddyfile/caddyfile.go:93-105 | global options have no keys, a snippet has one key and that is in parentheses, and the first key of a named matcher starts with an at sign |
| BlockOrder.CompareGoesBy | caddyfile/marshal.go:83-144 | blocks are compared by rank (global options, snippets, matchers, others), then order, then first different key, then number of keys, then children |
| BlockOrder.ForestsGoBy | caddyfile/marshal.go:129-142 | children are compared one by one, and fewer children come first |
| BlockOrder.CompareAntisymmetric | caddyfile/marshal.go:83-144 | swapping the arguments of `compareBlocks` negates it, and it is 0 exactly for equal blocks |
| BlockOrder.CompareTransitive | caddyfile/marshal.go:83-144 | `compareBlocks` is transitive |
| BlockOrder.InsertionSortSorted | caddyfile/marshal.go:76-80 | stable sorting puts siblings in order |
| BlockOrder.SortedUnique | caddyfile/marshal.go:71-81 | siblings have only one sorted arrangement |
| BlockOrder.SortForestDeepSorted | caddyfile/marshal.go:71-81 | after `sort` the siblings are in order at every level |
| BlockOrder.SortForestFixed | caddyfile/marshal.go:71-81 | a tree in order at every level is not changed by `sort` |
| BlockOrder.SortForestIdempotent | caddyfile/marshal.go:71-81 | sorting twice is sorting once |
| BlockOrder.SortCanonical | caddyfile/marshal.go:71-144 | two containers sort to the same tree exactly when one is the other with siblings rearranged |
| Parser.StepToken | caddyfile/marshal.go:186-212 | every container on the stack keeps enclosing the block created last, whatever the token |
| Parser.ParseContainerLoop | caddyfile/marshal.go:177-215 | the loop over tokens computes `ParseContainer` |
| Parser.ParserConservation | caddyfile/marshal.go:177-215 | the keys of an accepted parse are the tokens that are not braces, in order, however they are laid out |
| Parser.ParserRejects | caddyfile/marshal.go:193-197 | parsing fails exactly when some beginning of the tokens closes more containers than it opens |
| Outlines.ParseContainerLines | caddyfile/marshal.go:177-215 | the tokens of a line are one block, whose keys are its words; braces decide at which depth the blocks of the following lines are, and orders are positions; it fails exactly where a `}` has nothing to close |
| Outlines.OutlineUnique | caddyfile/marshal.go:177-215 | there is only one tree with given lines and depths |
| Outlines.UnmarshalLines | caddyfile/marshal.go:154-215 | what is read from any text is the only tree, numbered by position, that has the lines of the text |
| KeyLexing.RunBare | caddyfile/lexer.go:95-168 | inside a word every character is read as it is, a backslash being pending after an odd run |
| KeyLexing.RunQuoted | caddyfile/lexer.go:100-122 | inside quotes every character but a quote is read as it is |
| KeyLexing.RunBackticks | caddyfile/lexer.go:100-122 | inside backticks every character but a backtick is read as it is, and lines are counted |
| KeyLexing.LexKey | caddyfile/marshal.go:44-56 | a printed lexable key is read as one token, the key itself, with the line count in step |
| RoundTrip.LexForest | caddyfile/marshal.go:29-69 | the printed blocks are read as their keys and braces, on the lines where they stand |
| RoundTrip.ParseForest | caddyfile/marshal.go:177-215 | those tokens are parsed to the blocks they came from, numbered by position, and the stack is as before |
| RoundTrip.UnmarshalSafe | caddyfile/marshal.go:13-69 | from the text of a tree of safe keys everything is read back but the blocks that have neither a key nor a child |
| RoundTrip.UnmarshalMarshal | caddyfile/marshal.go:13-69 | reading back a printed tree of safe keys gives the sorted tree, only the orders becoming sibling indices |
| RoundTrip.ReindexSorted | caddyfile/marshal.go:201 | sibling indices agree with the precedence of global options, snippets and matchers, so a sorted tree stays sorted |
| RoundTrip.PrintingFixpoint | caddyfile/marshal.go:13-18 | printing what was read from a printed tree gives the same text |
| KeyExact.BraceKeysAreLost | caddyfile/marshal.go:193-210 | no text is ever read as a tree that has a brace for a key |
| KeyExact.RunHasNoSpace | caddyfile/lexer.go:124-142 | a token that was not quoted has no white space |
| KeyExact.OddBackslashIsLost | caddyfile/lexer.go:95-98 | a word that ends in an odd run of backslashes is read without the last one |
| KeyExact.SpecialIsSpecial | caddyfile/lexer.go:144-161 | a word that starts with a comment sign or a backtick, escaped or not, is not read as that word |
| KeyExact.BacktickKeyIsLost | caddyfile/marshal.go:44-48 | a key printed in backticks that has a backtick itself is read as another word, whatever follows |
| KeyExact.QuotedKeyIsLost | caddyfile/marshal.go:49-53 | a quoted key that ends in an odd run of backslashes is read as another word, whatever follows |
| Layout.LayForest | caddyfile/marshal.go:29-69 | the text of a forest is its keys, in order, with separators of white space and braces between them and a line end behind the last one |
| Layout.ReadsFirst | caddyfile/lexer.go:74-170 | the words of a text are its first token, unless that is a brace, and the words of the rest |
| Misreading.OverTakes | caddyfile/lexer.go:88-168 | a token and the marks around it have no more quotation marks or backticks than what was read for it |
| Misreading.OverBlank | caddyfile/lexer.go:124-168 | where no token has begun, separators yield nothing but braces |
| Misreading.PassBare | caddyfile/lexer.go:88-168 | from a proper end of a bare key, or from the whole of an unsafe one, and its separator, the key is not read |
| Misreading.PassQuotes | caddyfile/lexer.go:88-168 | nor is a quoted key from the end of its text |
| Misreading.PassTicks | caddyfile/lexer.go:88-168 | nor a key in backticks, unless it could be taken for a separator |
| TreeExact.Passes | caddyfile/lexer.go:74-170 | a reader that is not in front of a safe key and yet reads that key has read into the text of the keys behind it |
| TreeExact.Lagging | caddyfile/lexer.go:74-170 | such a reader never reads the remaining keys |
| TreeExact.UnsafeKeysAreLost | caddyfile/marshal.go:29-69 | the words that are read from laid out keys do not start with these keys if one of them is unsafe |
| TreeExact.PrunedSize | caddyfile/marshal.go:36-69 | a tree without its empty blocks has as many blocks only if it has none of them |
| TreeExact.ReadBackExact | caddyfile/marshal.go:13-69 | of all documents, exactly those are read back that have a block, whose keys are safe, whose blocks have a key or a child, and whose text does not start with a byte order mark |
| TreeExact.KeySafeExact | caddyfile/marshal.go:36-69 | a document of one key is read back unchanged exactly when the key is safe and does not start with a bare byte order mark |
| MergeInPlace.BlocksAreEqual | caddyfile/merge.go:43-53 | answers whether the key lists are equal |
| Merging.AbsorbsSameKey | caddyfile/merge.go:9-17 | a block is merged into a sibling exactly when their merge keys are equal: directive and matcher for proxies, all keys for others |
| Merging.MatchersAre | caddyfile/merge.go:39-41 | matchers are the asterisk, paths and names of matchers |
| Merging.ProxiesJoin | caddyfile/merge.go:6-37 | two `reverse_proxy` or two `php_fastcgi` directives with the same matcher become one with the upstreams of both; no matcher is the matcher `*` |
| Merging.ProxiesApart | caddyfile/merge.go:6-37 | proxies with different matchers stay apart |
| Merging.OthersJoin | caddyfile/merge.go:6-21 | two blocks that are no proxies become one exactly if their keys are equal |
| Merging.CombineKeysExact | caddyfile/merge.go:23-37 | merging two proxies keeps the matcher and both lists of upstreams, unless the first has nothing but its name and the second has two matchers in a row |
| Merging.MatcherCanChange | caddyfile/merge.go:23-41 | an example of a merge that changes the matcher |
| Merging.OrdinaryClean | caddyfile/merge.go:23-41 | a tree without a matcher-shaped key behind the matcher `*` does no harm to any tree it is merged into |
| Merging.PathsMerge | caddyfile/merge.go:6-30 | in a clean merge, the paths of the merged tree, in merge keys, are those of both trees |
| Merging.EntriesMerge | caddyfile/merge.go:6-30 | the upstreams of the merged tree, with path and directive, are the multiset sum of those of both trees exactly when the merge is clean: nowhere in it does a second matcher meet a directive that has only its name |
| Merging.NormalMerge | caddyfile/merge.go:6-30 | a clean merge keeps the normal form in which no siblings share a merge key |
| MergeLaws.ContainsExact | caddyfile/merge.go:6-30 | a merge changes nothing exactly when every block of the second tree has a place in the first, without upstreams, and so down to the leaves |
| MergeLaws.ContainsBelowAll | caddyfile/merge.go:6-30 | what is in the second tree is in the merged tree |
| MergeLaws.MergeTwice | caddyfile/merge.go:6-30 | merging two blocks of one merge key together is merging them one after the other |
| MergeLaws.MergeCommutes | caddyfile/merge.go:6-21 | merging a block that finds its place commutes with merging one of another merge key |
| MergeLaws.BlockAt | caddyfile/merge.go:6-30 | the first block with its merge key gets the children and the upstreams of all merged blocks of that merge key, in order |
| MergeLaws.Distinguish | caddyfile/merge.go:6-30 | whenever merging changes a tree, some block shows whether it was merged before or after |
| MergeLaws.SettledMerge | caddyfile/merge.go:6-30 | merging settled trees gives a settled tree |
| MergeLaws.MergeAssociative | caddyfile/merge.go:6-30 | merging is associative, with the order of keys and blocks, when the second and third tree are settled, whatever the first one is |
| MergeLaws.UnsettledBreaks | caddyfile/merge.go:6-30 | a tree in the middle that is not settled breaks associativity, even with a first and a third tree in normal form |
| MergeLaws.AssociativeExactly | caddyfile/merge.go:6-30 | a tree can stand in the middle of every merge exactly when it is settled: at every level, a sibling that would be merged into an earlier one adds nothing to it |
| MergeLaws.ThirdTreeMatters | caddyfile/merge.go:6-21 | an unsettled tree below the first of two siblings of the third tree breaks associativity as well |
| MergeLaws.SecondMatcherBreaks | caddyfile/merge.go:6-41 | so does a second matcher in the middle, with three settled trees |
| MergeLaws.Absorption | caddyfile/merge.go:6-21 | merging a tree without proxies whose paths are all there changes nothing |
| MergeLaws.MergeIdempotent | caddyfile/merge.go:6-21 | merging the same container twice is merging it once |
| MergeInPlace.AddUpstreams | caddyfile/merge.go:23-28 | appends the keys behind the name, without a matcher in second place |
| MergeInPlace.FindNode | caddyfile/merge.go:9-17 | finds the first block that absorbs the given one |
| MergeInPlace.MergeReverseProxyLike | caddyfile/merge.go:23-30 | adds the upstreams and merges the children |
| MergeInPlace.MergeNode | caddyfile/merge.go:6-21 | on nodes, `Merge` computes the merged tree; the nodes of the first container come first, then those of the second that found no place, which the second one still lists |
| Nodes.Node.constructor | caddyfile/caddyfile.go:37-50 | a new block has no keys, no children and the largest order |
| Nodes.Node.AddKeys | caddyfile/caddyfile.go:53-55 | appends keys and changes nothing else |
| Nodes.Node.AddBlock | caddyfile/caddyfile.go:58-60 | appends a block and changes nothing else |
| SortInPlace.CompareBlocks | caddyfile/marshal.go:83-144 | on nodes, with its loops over keys and children, `compareBlocks` computes `Compare` |
| SortInPlace.SortSiblings | caddyfile/marshal.go:76-80 | rearranges the nodes so that their blocks are sorted |
| SortInPlace.SortNode | caddyfile/marshal.go:71-81 | on nodes, `sort` computes the sorted tree, rearranges the same nodes and changes no block |
| SortInPlace.MarshalNode | caddyfile/marshal.go:13-18 | gives the text of the container, which is left sorted |
| SortInPlace.RemoveNode | caddyfile/caddyfile.go:82-90 | takes one block out by identity and changes nothing else |
| Components.JoinLinks | generator/generator.go:226-251 | uniting all sets that meet a given one changes nothing about which addresses are linked |
| Components.JoinTransitive | generator/generator.go:226-251 | uniting them keeps being together transitive |
| Components.TogetherLinked | generator/generator.go:226-251 | sets are their own connected components exactly when being together is transitive |
| Components.SamePartition | generator/generator.go:226-251 | a partition is determined by what is together in it |
| Sites.OverlapsMeet | generator/generator.go:261-292 | a site is found to overlap exactly when it has an address of the incoming block |
| Sites.SitesRankLast | generator/generator.go:254-259 | sites are the blocks that are no global options, snippets or named matchers |
| Sites.MergeSiteKeeps | generator/generator.go:294-310 | a site that takes in another one keeps its order and its keys, and the addresses that it did not have come behind them, each once, in the order in which they first appear |
| Sites.MergeAlone | generator/generator.go:248-250 | a site that overlaps no other is added as it is, and other blocks never end up in a site |
| Sites.AbsorbGroups | generator/generator.go:226-251 | on address sets, a round unites exactly the sets that meet the incoming one |
| Sites.MergeSitesLinks | generator/generator.go:217-252 | merging sites never changes what is linked by shared addresses, whatever the base |
| Sites.SitesAreComponents | generator/generator.go:217-310 | if the sites of the base are the components of their addresses, then so are the merged ones: two addresses are in one site exactly when a chain of overlapping input sites links them; disjoint sites stay disjoint |
| Sites.ComponentsExactly | generator/generator.go:217-310 | whatever blocks come in, the merged sites are components exactly when those of the base are |
| Sites.OrdinarySitesClean | generator/generator.go:217-310 | sites without a matcher-shaped key behind the matcher `*` are merged without harm |
| Serving.SitesServe | generator/generator.go:217-310 | an address has a directive exactly when a linked address had it in some input site, provided that sites are merged without harm and that, in the base, linked addresses have a site in common and the addresses of a site the same directives |
| Serving.DisjointJoined | generator/generator.go:217-252 | the condition on the base is met when its sites have no address in common, or all of them |
| Serving.JoinedExactly | generator/generator.go:217-310 | it is so for all incoming blocks exactly when the base meets that condition |
| Serving.ArrivalOrder | generator/generator.go:217-252 | neither the sites nor what they serve depend on the order in which blocks arrive |
| SitesKeep.UpstreamsConserved | generator/generator.go:217-310 | the upstreams of all sites are conserved as a multiset, exactly when the sites are merged without a second matcher doing harm |
| SitesKeep.OtherBlocksMerged | generator/generator.go:226-251 | global options, snippets and matchers are merged as if there were no sites |
| SitesInPlace.FindSharedKeys | generator/generator.go:277-292 | gives the keys of the second block that the first one has, in order |
| SitesInPlace.FindOverlappingSiteBlocks | generator/generator.go:261-275 | gives the sites that overlap the incoming block, in order |
| SitesInPlace.MergeSiteBlocks | generator/generator.go:294-310 | adds the missing keys once each and merges the children |
| SitesInPlace.JoinSites | generator/generator.go:228-244 | the first overlapping site takes in the incoming block and all other overlapping sites, which are removed |
| SitesInPlace.MergeCaddyfile | generator/generator.go:217-252 | on nodes, computes `MergeSites`, or `Merge` when sites are not to be merged |
| LabelPath.ParentOfMatch | caddyfile/fromlabels.go:12-67 | in every match of the pattern the parent is what is above the last dot, and the rest is the last segment |
| LabelPath.MatchExists | caddyfile/fromlabels.go:12-67 | the pattern matches exactly the paths with a last segment and, above a dot, a parent that is not empty and on one line |
| LabelPath.WellFormedExactly | caddyfile/fromlabels.go:12-67 | the pattern matches a path and everything above it exactly when no segment is empty and no line feed is above the last one |
| LabelPath.ParsePathMatches | caddyfile/fromlabels.go:12-67 | what is taken off a path is what the pattern takes off it: an order whenever there is one, and the shortest name behind it |
| LabelNumbers.OrderExactly | caddyfile/fromlabels.go:58-67 | the order of a path is the decimal number in front of its name, with zeros or without, or the largest `int` if that is smaller; a path without a number has the order 2147483647 |
| LabelNumbers.NumberOfDecimal | caddyfile/fromlabels.go:63 | reading the decimal notation of a number gives the number, whatever zeros are in front of it |
| LabelNumbers.SmallerNumberFirst | caddyfile/marshal.go:71-113 | of two labels that stand side by side, at any level, and whose blocks are of one kind, the one with the smaller number is printed first |
| Labels.CreateShape | caddyfile/fromlabels.go:35-56 | creating a block creates exactly the missing blocks above it, and every block stays in the list of its parent, once |
| Labels.BuildStep | caddyfile/fromlabels.go:19-30 | a round of the loop gives its block the arguments of the label behind the name, and keeps every other block |
| Labels.BuiltAlike | caddyfile/fromlabels.go:15-67 | maps built from the same labels hold containers that sort to the same tree |
| LabelCount.OneBlockEach | caddyfile/fromlabels.go:35-56 | the container has as many blocks, at all levels, as there are paths |
| FromLabels.ParseArgs | caddyfile/fromlabels.go:82-96 | the arguments are the texts of the tokens; an empty text has none |
| FromLabels.ArgsAreKeys | caddyfile/fromlabels.go:82-96 | without braces, the arguments of a label are the keys that its text would have as a Caddyfile |
| FromLabels.Builder.GetOrCreateBlock | caddyfile/fromlabels.go:35-56 | the recursion over parents computes `Create`, and ends because parents have shorter paths |
| FromLabels.FromLabels | caddyfile/fromlabels.go:15-33 | fails exactly when the text of some label cannot be expanded; otherwise there is one block for each path |
| FromLabels.LabelOrder | caddyfile/fromlabels.go:18-67 | any two results for the same labels are printed alike |
| Processing.Index | caddyfile/processor.go:61-64 | the index of the first occurrence |
| Processing.AmbiguousName | caddyfile/processor.go:54-74 | the ambiguous name is the first word behind the first mention of an ambiguous site |
| Processing.NoAmbiguousName | caddyfile/processor.go:54-74 | there is no name exactly when there is no mention of one, or only white space behind the first mention |
| Processing.ProcessSound | caddyfile/processor.go:12-52 | the output is empty or accepted by the adapter |
| Processing.SettleShrinks | caddyfile/processor.go:33-48 | a block that is kept has its children and order, and has keys if it had any |
| Processing.SettleChain | caddyfile/processor.go:33-48 | a block loses keys one by one, each time the first occurrence of the name in the message with which the adapter rejects what is left of it, and nothing else; it is kept as soon as the adapter accepts it, and dropped when there is no such key or it is the only one |
| Processing.OnlyTheNamedKeyGoes | caddyfile/processor.go:33-48 | if the block without the named key is accepted, it is kept with all other keys |
| Processing.RemoveFirstIs | caddyfile/processor.go:76-91 | the first occurrence of the key goes, and nothing else |
| Processing.SurvivorsAndLogs | caddyfile/processor.go:26-49 | every block is tried out with those kept before it, and the kept ones follow one another; logged is exactly what was dropped, with the error and the text that the block had at first, and a hint at a name that was found ambiguous |
| Processing.LogsInOrder | caddyfile/processor.go:40-46 | a hint stands directly behind the error that it is about |
| Processing.ProcessReports | caddyfile/processor.go:12-52 | an invalid text is reported and gives nothing; otherwise nothing is logged exactly if no block is dropped |
| Processing.DroppedForCause | caddyfile/processor.go:33-48 | a block is only dropped when the adapter rejects what is left of it and names no key that could be removed, or the only one |
| Processing.SurvivorsFaithful | caddyfile/processor.go:26-49 | the blocks that are kept are blocks of the input, in order, possibly with fewer keys |
| Processing.ProcessFaithful | caddyfile/processor.go:12-52 | if the adapter accepts every beginning of the sorted blocks, the output is the text of all of them and nothing is logged |
| ProcessInPlace.RemoveKey | caddyfile/processor.go:80-90 | takes out the first occurrence of a key, and says whether there was one |
| ProcessInPlace.RemoveBlockKey | caddyfile/processor.go:76-91 | does so on a block and leaves its children alone |
| ProcessInPlace.TryOut | caddyfile/processor.go:34 | the adapter is asked about the kept blocks and the one tried out, however the container is arranged |
| ProcessInPlace.SettleBlock | caddyfile/processor.go:33-48 | the inner loop keeps or drops the block as `Settle` says; a dropped block leaves the kept ones as they were |
| ProcessInPlace.FilterBlocks | caddyfile/processor.go:26-49 | the outer loop keeps the survivors and logs what was dropped |
| ProcessInPlace.Process | caddyfile/processor.go:12-52 | on nodes, `Process` computes the text and the logs that the functions say |
| Generating.SortSplit | caddyfile/marshal.go:83-90 | the sorted container is its sorted global options followed by everything else sorted |
| Generating.GlobalsFirst | generator/generator.go:183-194 | printing global options before everything else is printing everything at once |
| Generating.NeverEmpty | generator/generator.go:196-208 | there is always a text, and the one that stands for no text has no blocks |
| Generating.GeneratedSound | generator/generator.go:196-208 | a filtered text is accepted by the adapter or is the comment for no text |
| Generating.GeneratedUnchanged | generator/generator.go:183-208 | a printable container whose beginnings are all accepted is generated as it is, filtered or not |
| GeneratingInPlace.WriteGlobalsFirst | generator/generator.go:183-194 | moving global options to a container of their own and printing both gives the text of the whole |
| GeneratingInPlace.GenerateText | generator/generator.go:183-208 | on nodes, computes the generated text |
| Throttle.StepKeeps | loader.go:186-252 | every step of the handler, the timer and overlapping updates keeps the invariant, and so does time, which passes at any moment |
| Throttle.FlagMeansUpdate | loader.go:211-252 | however steps are interleaved and delayed, a set flag means that the timer is armed for the throttle interval, or is about to be, or that an update has yet to clear it |
| Throttle.EventMeansUpdate | loader.go:211-252 | so does an event that no generation has started after, whether it was taken or skipped; the timer is idle only while an update is about to arm it |
| Throttle.EventsGenerateInTime | loader.go:211-252 | in every interleaving an event waits at most one throttle interval for each client, and the time that due steps have been delayed |
| Throttle.PollsInTime | loader.go:186-245 | in every interleaving, an update begins at most the polling interval after the last one, and at once at the start, but for one throttle interval for each client and one more, and the time that due steps have been delayed |
| Throttle.PromptInTime | loader.go:186-252 | without delays an event waits at most one throttle interval for each client, and updates come at most the polling interval and the throttle intervals apart |
| Throttle.FiresExactly | loader.go:186-245 | the timer can fire as soon as the throttle interval after an event, or the polling interval after an update began, is over, and not before; at the start it can fire at once |
| Throttle.FireComes | loader.go:186-235 | in every fair execution the timer fires if no update is under way: events can put it off once for each client |
| Throttle.GenerationFollows | loader.go:186-252 | in every fair execution, from every moment on there is another generation, and no event has waited longer than the throttle intervals and the delays |
| Delivery.StepKeeps | loader.go:254-357 | every step of updates and pushes keeps the invariant |
| Delivery.ServersAreAsNewAsRecorded | loader.go:303-357 | every server runs a configuration at least as new as its recorded version, which never exceeds the last one |
| Delivery.OnePushPerServer | loader.go:306-313 | no two pushes to one server are ever under way |
| Delivery.ServersNeverGoBack | loader.go:303-357 | no server goes back to an older configuration |
| Delivery.RecordIncreases | loader.go:357 | every successful push records a newer version |
| Delivery.FailureIsRetried | loader.go:315-355 | after a failed push the next update that gets to the server pushes to it again |
| Delivery.PushDelivers | loader.go:303-357 | an undisturbed push brings its server up to the last version and records it |
| Delivery.ChangedIsPushed | loader.go:244-301 | a changed Caddyfile gets a version newer than all that is recorded or runs anywhere, and every listed server gets a goroutine |
| Delivery.UnchangedIsPushed | loader.go:252-301 | an unchanged one keeps its version and is pushed all the same |
| Delivery.InvalidIsRemembered | loader.go:252-277 | one that cannot be adapted is remembered, and nothing is pushed |
| Delivery.UpdateDelivers | loader.go:244-357 | however the goroutines are interleaved, when they have all returned and nothing has gone wrong, a listed server runs the last version, unless a push to it was past reading its configuration |
| Delivery.DeliveredExactly | loader.go:244-357 | a changed Caddyfile is sure to get to a listed server that does not fail exactly if no such push to that server is under way |
| Delivery.SkippedIsUpToDate | loader.go:315-320 | a server is skipped exactly when it is known to run the last version |
| Technitium.IndexRecords | namepublish/technitium.go:115-127 | the maps hold the managed records by name, and all records by name and type, in order |
| Technitium.HasUnmanaged | namepublish/technitium.go:365-372 | answers whether some record is not managed |
| Technitium.KeysDiffer | namepublish/technitium.go:122-144 | the joined map keys tell names and types apart |
| Technitium.FilterNamesKeeps | namepublish/technitium.go:422-439 | exactly the names are published that are the zone, or something in front of a dot and the zone, in lower case and without a dot at the end |
| Technitium.OtherNamesAreDropped | namepublish/technitium.go:422-439 | a name that merely ends in the letters of the zone is not published |
| Technitium.FilterNamesInOrder | namepublish/technitium.go:422-439 | the names keep their order |
| Technitium.DeleteUnderway | namepublish/technitium.go:236-266 | a delete of a listed managed record takes away no record of others and undoes nothing that is right |
| Technitium.AddUnderway | namepublish/technitium.go:200-234 | an overwriting add where nobody else's record is in the way takes away no record of others |
| Technitium.DeleteRecord | namepublish/technitium.go:236-266 | a record without a value is skipped; otherwise the zone is as after the delete, or possibly as before it if the call fails; without a failing call there is no error |
| Technitium.DeleteUndesired | namepublish/technitium.go:129-138 | in any order of the names, no managed record of an undesired name is left and all others are, unless a call fails |
| Technitium.SetRecord | namepublish/technitium.go:168-180 | the record of the target type stays if it is right, and otherwise the new one replaces those that were listed, unless a call fails |
| Technitium.PublishName | namepublish/technitium.go:140-181 | unless a call fails, a name without a conflict gets its record of the right type and value and loses those of other types, a name with one is left alone, and so are the records of other names |
| Technitium.PublishOnce | namepublish/technitium.go:95-184 | a run succeeds unless a call fails; then it has converged, and the zone has exactly the records that it should. A run that is cut off harms no record of others, and a run on a converged zone changes nothing |
| Technitium.Publish | namepublish/technitium.go:56-92 | there is another attempt exactly if an error is worth it, fewer than five were made and the wait is not cut short; if all errors are worth it, no wait is cut short and fewer than five of the listings and other calls fail, it succeeds |
| Technitium.EnoughAttempts | namepublish/technitium.go:67-86 | every failed attempt takes one failing listing or one failing call, so fewer than five of them do not exhaust the attempts |
| Technitium.RetryableExactly | namepublish/technitium.go:383-409 | an error is worth another attempt exactly if neither of two messages is somewhere in it |

## Left out

- RoundTrip.UnmarshalMarshal: is one direction; `TreeExact.ReadBackExact` is both.
- MergeLaws.MergeAssociative: asks for settled trees and for no matcher-shaped key behind the matcher `*` in the second and third tree. For the second tree the condition is exact (`MergeLaws.AssociativeExactly`); for the third one it is sufficient, and `MergeLaws.ThirdTreeMatters` shows that some condition is needed.
- MergeLaws.AssociativeExactly: is about trees without a matcher-shaped key behind the matcher `*`; `MergeLaws.SecondMatcherBreaks` shows why.
- Serving.JoinedExactly: is about sites without a matcher-shaped key behind the matcher `*`.
- Merging.PathsMerge: asks for a clean merge; a merge that loses an upstream can still keep all paths.
- Serving.ArrivalOrder: asks for a base whose sites have no address in common, or all of them, and for what they serve also that sites are merged without harm in both orders.
- LabelPath.ParsePathMatches: paths with an empty segment, or with a line feed above the last segment, are left out; the program panics on them because the pattern does not match.
- FromLabels.FromLabels: template expansion is any function of the text of a label, and a pointer to a block is the path under which the map has it.
- Parser.ParseContainerLoop: a pointer to a container is its depth on the rightmost spine of the tree, on which all containers of the stack lie.
- MergeInPlace.MergeNode: what the blocks that were merged into others look like afterwards, which only the second container lists, is left open.
- SitesInPlace.MergeCaddyfile: containers are never nil, and the warning about merged sites is not modelled.
- GeneratingInPlace.WriteGlobalsFirst: a block is removed from the first container before it is added to the other, not after.
- Throttle.EventsGenerateInTime: reading a flag and setting it are one step, as no other step depends on what is between them; an error on the channel of one client is a switch to the next one. What delays a step, and how long a generation takes, is left open.
- Throttle.GenerationFollows: that a step which can be taken all the time is taken in the end is an assumption about the scheduler, the timer and the clock.
- Delivery.ServersAreAsNewAsRecorded: the part of `update` before the pushes is one step, as are testing and setting the flag of a server; a push takes effect by its response or never.
- Technitium.PublishOnce: a delete acts on name, type and value and an overwriting add on name and type, and no managed record has the triple of an unmanaged one; a second run on a converged zone is shown to change nothing when names have no surrounding white space.
- Technitium.Publish: the messages of errors and whether a wait is cut short are given from outside, and the length of the waits is not modelled. Which errors are retried depends on two messages only; what the source asks after these makes no difference.
- Bytes and UTF-8: texts are sequences of characters; comparing strings by character agrees with comparing their UTF-8 bytes.
- The adapter is any function of the text; that Caddy's adapter is one is taken for granted.
- Docker and swarm clients, the `upstreams` template function, default imports, label filtering, container addresses, HTTP bodies, JSON, logging, file writing and the multicast responder are not modelled.
