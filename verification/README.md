# Verified models of the compatibility layer

The bundled gnulib/glibc layer (`libmissing/`) holds several small algorithmic
cores. This project models them in Dafny and proves what they promise. Where the
original changes things in place — tree pointers, node-set buffers, output arrays,
conversion state, signal tables — the model is a class or a loop over arrays, proved
against a function or a tree of the specification; the lemmas then say what that
specification means.

| Files | Core |
|---|---|
| `Common` | the option type, bytes, and C's quotient, which the other modules share |
| `RegexTree`, `RegexWalk`, `RegexPasses`, `RegexMeaning` | the parse tree in its storage, the two stackless walks with their five visitors and any other, and the two rewriting passes |
| `RegexNfa`, `RegexBuild`, `RegexCompile` | the automaton, the passes that build it, and the compiler: the automaton accepts exactly the language of the tree |
| `RegexGroups` | which groups are merged, the group map, and the brackets left in the automaton |
| `RegexDup`, `RegexRepeat`, `RegexInterval` | copying a subtree, and the repetition operators |
| `NodeSet`, `NodeSetArray` | sorted node sets, merged in place |
| `RegexClosure`, `RegexStates`, `RegexFastmap` | epsilon closures, the hash-consed state table, the first-byte filter, and the whole compilation |
| `InetText`, `InetGrammar`, `Inet` | the texts of IPv4 and IPv6 addresses, their grammar, and the routines that print and parse them |
| `Mktime`, `MktimeInverse` | Gregorian day arithmetic on machine integers, and the inversion of a time conversion |
| `Mbrtowc` | restartable UTF-8 decoding |
| `SignalMask` | the emulation of signal masks |
| `PrintfFormat`, `PrintfText`, `PrintfParse` | what a printf format means, how its directives are written, and the parser with its argument table |
| `Memchr`, `Intprops` | word-at-a-time search; digit bounds and overflow tests |

How the pieces fit:

- **Regular expressions.** A pattern's tree has a language (`RegexTree.InLang`). The
  walks climb parent pointers without a stack, while a visitor may replace the operands
  of a node or splice one out; `Postorder` and `Preorder` are proved to do exactly what
  the recursive walks do, for the five visitors and for any other that keeps to the
  subtree it is called on. `Analyze` runs the five passes, and the automaton it leaves
  accepts, from the node it names, exactly the words of the original tree's language.
  It also leaves the right brackets in the automaton and the right group map: a group
  directly inside another is absorbed by it, and the map sends it there.
  `CompilePattern` adds closures, the initial state and the first-byte filter: if a byte
  is not marked, nothing that starts with it has a prefix in the language; and unless a
  bracket matches nothing at all, the marked bytes are exactly those that begin a word of
  the language, or all of them when the empty word is one.
- **Calendars.** A conversion is any function that gives calendar dates at a fixed
  offset from UTC and fails outside the years of an `int`; `FixedOffsetExists` shows
  that there is one. `MktimeInternal` is proved to invert it exactly when both the time
  asked for and the time with its seconds set aside are convertible. The second half of
  the condition is needed: `SecondsCanMiss` gives a date whose time exists and for which
  the original returns -1.
- **Addresses.** Every IPv6 address is read back from its text; `inet_pton4` accepts
  nothing but the text that `inet_ntop4` prints; and `inet_pton6` accepts exactly the
  texts of a grammar of groups, at most one "::" and perhaps an IPv4 tail.
- **Formats.** `printf_parse` accepts exactly the formats that are composed of literal text
  and directives, as `PrintfText` writes them down, that agree on their arguments; and each
  directive it stores is what its text means.
- **Signals.** Every operation of the emulation is one step of an abstract machine, so
  every run is a run of that machine; the lemmas are about its runs.

Where the code and its comments disagree, the model follows the code:

- In a chain of groups each directly inside the one before, a group absorbs only the one
  right below it, since the walk goes on behind that one: of four, the third stays and
  absorbs the fourth (`RegexGroups.ChainOfFour`). So an absorbed group is not always sent to
  the outermost one, and the map is dropped if and only if no group is directly inside
  another.
- `re_node_set_insert` is documented as inserting into a set, but inserts an element
  that is already there a second time (`NodeSet.Inserted`); closures are therefore
  characterised by membership.
- In `{m,n}`, an `n` above RE_DUP_MAX is reported as too big even when `m` exceeds `n`
  (`RegexInterval.IntervalExact`).
- `re_compile_fastmap_iter` returns at an OP_PERIOD, and END_OF_RE is the last node, so
  `can_be_null` is set if and only if the empty word matches and no period can be tested
  first.
- `inet_ntop4` accepts a buffer as long as the text without its NUL; the NUL then lands
  one byte behind it, and `Inet.InetNtop4` reports that case exactly.
- In a type whose minimum is minus its maximum and whose values have k bits, the left-shift
  overflow test misses one operand for every shift count b above 0: -(2 ** (k - b)), which
  is shifted just below the minimum (`Intprops.LeftShiftMisses`). For all other operands,
  and in all other types, it is exact (`Intprops.LeftShiftExact`).

## Model

| member | source | states |
|---|---|---|
| `RegexCompile.ReDfa.Analyze` | libmissing/regcomp.c:1189-1250 | compilation preserves meaning: after the five passes the automaton, from the node returned, accepts exactly the words of the original tree's language, NULL operands and nested or nullable stars included; its last node and no other is END_OF_RE, and unless a bracket is empty no node is a dead end; the group map is kept if and only if some group is absorbed, sends each of those to the group directly around it and every other to itself; the brackets in the automaton are those of the groups that stay, in the order of the pattern; back-references may name the groups they did but for absorbed ones; and a choice in the pattern is noted. What is said of the map holds of trees whose groups are apart (`RegexGroups.AlikeApart`) |
| `RegexGroups.RootGroups` | libmissing/regcomp.c:1202-1218 | walking a tree from the identity and dropping the map if it still is one: told from the maximal chains of directly nested groups, the second of a chain goes to the first, the fourth to the third and so on, and every other group to itself |
| `RegexGroups.RootAbsorbs` | libmissing/regcomp.c:1317-1344 | the pairs that the walk from the root meets are those pairs of the chains |
| `RegexGroups.AlikeApart` | libmissing/regcomp.c:1317-1344 | if a group that stands in two places has the same chain around it there, no group is absorbed by two others or by an absorbed one |
| `RegexGroups.JoinAlike` | libmissing/regcomp.c:2184-2267 | joining two trees whose groups differ, by anything but a group, keeps this: a group that stands in two places has the same chain around it in both |
| `RegexGroups.GroupAlike` | libmissing/regcomp.c:2498-2538 | putting a new group around a tree keeps that too |
| `RegexGroups.NumberedAlike` | libmissing/regcomp.c:2498-2538 | that holds of every tree whose groups are numbered once |
| `RegexGroups.ChainOfFour` | libmissing/regcomp.c:1317-1344 | in a chain of four the third group absorbs the fourth, and the first does not |
| `RegexGroups.RootMarks` | libmissing/regcomp.c:1348-1404 | the brackets of the automaton, read from left to right, are those left of the pattern: none for an absorbed group, nor without registers for a group that has something in it and that no back-reference names |
| `RegexCompile.ReDfa.Postorder` | libmissing/regcomp.c:1252-1283 | climbing parent pointers does what the recursive postorder walk does, each node once, even when the visitor replaces the operands of the node visited; for any visitor that changes only nodes of the subtree it is called on, adds nodes, and leaves that subtree's root in its place |
| `RegexCompile.ReDfa.Preorder` | libmissing/regcomp.c:1284-1315 | the same in preorder, even when the visitor splices out the left operand of the node visited; for any visitor that changes only nodes of the subtree it is called on, and none of its links and tokens |
| `RegexCompile.ReDfa.Descend` | libmissing/regcomp.c:1260-1268 | the inner loop reaches the node the recursive walk visits next, with the storage as that walk would find it |
| `RegexCompile.PostTurn` | libmissing/regcomp.c:1266-1281 | at a node's turn what the visitor follows is in place, and afterwards the links above it still say on which side the walk has been |
| `RegexCompile.PreTurn` | libmissing/regcomp.c:1290-1312 | after a visit the walk is about to do exactly what is left of the recursive walk: left, else right, else climb |
| `RegexCompile.PreClimb` | libmissing/regcomp.c:1300-1311 | climbing from a finished subtree finds the next right operand still to be visited |
| `RegexCompile.ReDfa.CreateTree` | libmissing/regcomp.c:3821-3853 | a fresh node that adopts its operands; nothing else changes |
| `RegexCompile.ReDfa.LowerSubexp` | libmissing/regcomp.c:1370-1404 | the replacement of a SUBEXP, bracketed or dropped, as the specification function says |
| `RegexCompile.ReDfa.LowerSubexpsAt` | libmissing/regcomp.c:1348-1367 | both operands of the node visited are replaced where they are SUBEXPs |
| `RegexCompile.ReDfa.OptimizeSubexpsAt` | libmissing/regcomp.c:1317-1344 | where a group has a group right below it, that one is spliced out, its map entry becomes that of the group above, and back-references may no longer name it; elsewhere nothing changes |
| `RegexCompile.ReDfa.CalcFirstAt` | libmissing/regcomp.c:1406-1427 | FIRST and the new automaton node of the node visited |
| `RegexCompile.ReDfa.CalcNextAt` | libmissing/regcomp.c:1429-1449 | NEXT of both operands of the node visited |
| `RegexCompile.ReDfa.LinkNfaNodesAt` | libmissing/regcomp.c:1452-1506 | the edges of the automaton node of the node visited |
| `RegexCompile.OptimizeFold` | libmissing/regcomp.c:1317-1344 | the whole optimising walk leaves the optimised tree in the storage |
| `RegexPasses.LowerFold` | libmissing/regcomp.c:1348-1404 | the whole lowering walk leaves the lowered tree in the storage, made of the old nodes and fresh ones, and touches nothing else |
| `RegexMeaning.OptimizedMeaning` | libmissing/regcomp.c:1317-1344 | dropping a SUBEXP directly inside another keeps the language and the shape |
| `RegexMeaning.LowerMeaning` | libmissing/regcomp.c:1348-1404 | replacing every SUBEXP by its brackets, or by its operand, keeps the language and leaves no SUBEXP below the root |
| `RegexMeaning.RewrittenRoot` | libmissing/regcomp.c:1210-1223 | both rewriting passes together keep the language of a whole tree |
| `RegexBuild.FirstFold` | libmissing/regcomp.c:1406-1427 | the FIRST walk lays the automaton out node by node and sets `first` and `node_idx` of every tree node accordingly |
| `RegexBuild.NextFold` | libmissing/regcomp.c:1429-1449 | the NEXT walk sets where matching continues after every node, and nothing else |
| `RegexBuild.LinkFold` | libmissing/regcomp.c:1452-1506 | the linking walk wires every subtree to its continuation and touches no other automaton node |
| `RegexNfa.RunSplits` | libmissing/regcomp.c:1452-1506 | soundness: an accepting run from the start of a wired subtree reads a word of its language and then runs on from its continuation |
| `RegexNfa.RunJoins` | libmissing/regcomp.c:1452-1506 | completeness: a word of a wired subtree's language followed by a word accepted from its continuation is accepted |
| `RegexNfa.WiredAccepts` | libmissing/regcomp.c:1452-1506 | a wired whole tree accepts a word if and only if it is in its language |
| `RegexNfa.WiredProper` | libmissing/regcomp.c:1452-1506 | every edge leads to a node of the automaton; epsilon nodes have one or two destinations in increasing order |
| `RegexNfa.WiredEnds` | libmissing/regcomp.c:1452-1506 | END_OF_RE is the last node and no other, and unless a bracket is empty it can be reached from every node |
| `RegexDup.DuplicateTree` | libmissing/regcomp.c:3898-3936 | the walk with two cursors appends the recursive copy and changes nothing else, wherever the root hangs, as long as every ancestor has it on its right or has nothing there |
| `RegexDup.DupModels` | libmissing/regcomp.c:3898-3936 | what is appended is a tree isomorphic to the original below the same parent |
| `RegexDup.DupGrows` | libmissing/regcomp.c:3898-3936 | no existing node changes |
| `RegexDup.CopyIds` | libmissing/regcomp.c:3898-3936 | the copy's nodes are all fresh and used once |
| `RegexDup.CopyMeaning` | libmissing/regcomp.c:3898-3936 | the copy has the original's language and is well formed if the original is |
| `RegexDup.CopyWithin` | libmissing/regcomp.c:3898-3936 | the copy has the groups of the original, in the same chains |
| `RegexRepeat.Repeat` | libmissing/regcomp.c:2613-2679 | the tree built for an operand with bounds m..n has as its language the union of the powers m to n of the operand's language, or all from m on; and every chain of groups in it is one of the operand's |
| `RegexRepeat.TailSpine` | libmissing/regcomp.c:2622-2674 | whenever a copy is made, everything above the copied operand has it on its right or has nothing there |
| `RegexRepeat.NestedOptionRepeats` | libmissing/regcomp.c:2660-2674 | (acc e)? allows one iteration more than acc |
| `RegexRepeat.StarRepeats` | libmissing/regcomp.c:2651-2652 | a star is any number of iterations |
| `RegexRepeat.RepeatsAfter` | libmissing/regcomp.c:2676-2677 | m iterations followed by up to d more are m to m + d iterations |
| `RegexRepeat.NilRepeats` | libmissing/regcomp.c:2613-2614 | repeating the empty expression within usable bounds is the empty expression |
| `RegexInterval.ParseDupOp` | libmissing/regcomp.c:2540-2684 | after '+' the words of the tree built are those made of one word of the operand or more, after '*' of any number, after '?' the empty word and the operand's; for an interval the repetition within the bounds read, or the operand itself if it is read literally, or the error, with only the operand's parent changed among the old nodes; the cursor and the next token in each case |
| `RegexInterval.IntervalExact` | libmissing/regcomp.c:2548-2604 | {m,n} is accepted with those bounds if and only if m <= n <= RE_DUP_MAX; which error otherwise |
| `RegexInterval.IntervalShorthands` | libmissing/regcomp.c:2551-2568 | {m}, {m,} and {,n} mean m..m, m and more, and 0..n |
| `RegexInterval.IntervalWritten` | libmissing/regcomp.c:2548-2604 | an interval is read with certain bounds if and only if it is written with them, one number or two either of which may be missing, in order and not above RE_DUP_MAX |
| `RegexInterval.IntervalBroken` | libmissing/regcomp.c:2551-2604 | what is not written so: which error it is, and when it makes the brace an ordinary character |
| `RegexInterval.BoundsOrdered` | libmissing/regcomp.c:2591-2609 | bounds that are accepted are ordered and at most RE_DUP_MAX |
| `RegexInterval.NumberIsValue` | libmissing/regcomp.c:3769-3790 | a numeral is read as its value, capped at RE_DUP_MAX + 1 however long it is |
| `RegexInterval.NumberExact` | libmissing/regcomp.c:3769-3790 | reading stops at the first token that can end a number; it yields a number if and only if only digits, one at least, stand before it, MISSING if nothing does, and an error otherwise or at the end of the pattern |
| `RegexInterval.ReString.FetchNumber` | libmissing/regcomp.c:3769-3790 | the reading loop computes that number and stops at the token that ended it |
| `NodeSetArray.ReNodeSet.Merge` | libmissing/regex_internal.c:1192-1270 | the in-place backward merge leaves the merge of the two sets; its scratch area never overlaps an unread element and stays within the buffer |
| `NodeSetArray.ReNodeSet.AddIntersect` | libmissing/regex_internal.c:1048-1134 | the in-place addition of an intersection leaves dest woven with the common elements it lacks |
| `NodeSetArray.ReNodeSet.InitUnion` | libmissing/regex_internal.c:1140-1186 | the union of two sets in a fresh buffer |
| `NodeSetArray.ReNodeSet.Insert` | libmissing/regex_internal.c:1276-1324 | the element is inserted after its equals |
| `NodeSetArray.ReNodeSet.InsertLast` | libmissing/regex_internal.c:1329-1347 | the element is appended, the buffer growing when it is full |
| `NodeSetArray.ReNodeSet.Contains` | libmissing/regex_internal.c:1367-1386 | binary search of a non-decreasing array: 0 if and only if absent, else one more than the first position |
| `NodeSetArray.ReNodeSet.Compare` | libmissing/regex_internal.c:1352-1363 | true if and only if the contents are equal |
| `NodeSetArray.ReNodeSet.RemoveAt` | libmissing/regex_internal.c:1389-1399 | exactly the element at that position goes; an index out of range changes nothing |
| `NodeSet.MergedMeaning` | libmissing/regex_internal.c:1192-1270 | merging non-decreasing sets: non-decreasing, each element as often as in the operand that has it more often; the members are the union |
| `NodeSet.MergedStrict` | libmissing/regex_internal.c:1192-1270 | strictly increasing operands give a strictly increasing union |
| `NodeSet.ExtraMeaning` | libmissing/regex_internal.c:1216-1235 | pairing from the top collects exactly the multiset difference, in order |
| `NodeSet.WeaveMeaning` | libmissing/regex_internal.c:1237-1267 | sliding new elements in from the top keeps the order and every element |
| `NodeSet.CommonMeaning` | libmissing/regex_internal.c:1069-1101 | the three-way scan collects exactly the common elements that dest lacks |
| `NodeSet.AddedMeaning` | libmissing/regex_internal.c:1048-1134 | the members afterwards are dest or in both sources, in order, strictly if the inputs are |
| `NodeSet.UnionIsMerge` | libmissing/regex_internal.c:1140-1186 | the fresh union and the in-place merge agree |
| `NodeSet.InsertedMeaning` | libmissing/regex_internal.c:1276-1324 | insertion keeps the order and adds the element exactly once more |
| `RegexClosure.Closures.CalcEclosure` | libmissing/regcomp.c:1678-1721 | terminates on every graph whose epsilon edges lead to nodes, cyclic or not, and every entry's members are exactly the nodes reachable by epsilon edges |
| `RegexClosure.Closures.CalcEclosureIter` | libmissing/regcomp.c:1723-1797 | the search below a stack of unfinished nodes gathers everything reachable without passing through them, only reachable nodes, and stores only whole closures |
| `RegexClosure.Closures.CalcInveclosure` | libmissing/regcomp.c:1654-1674 | the converse relation, in increasing order |
| `RegexClosure.GatheredAll` | libmissing/regcomp.c:1750-1796 | what the destinations contribute, with the node itself, is everything it reaches; it is its whole closure if nothing was skipped or it is the root |
| `RegexClosure.LastExit` | libmissing/regcomp.c:1750-1778 | whatever is reachable from a node is reachable from one of its destinations without coming back |
| `RegexStates.StateTable.AcquireStateContext` | libmissing/regex_internal.c:1519-1557 | the one state for a context and node set, made on the first request and found in its bucket on every later one |
| `RegexStates.StateTable.AcquireAll` | libmissing/regex_internal.c:1519-1557 | over any run of requests, two get the same state if and only if they ask for the same context and node set |
| `RegexStates.StateTable.Register` | libmissing/regex_internal.c:1561-1594 | the new state joins the bucket its hash selects and every state is still in its own bucket |
| `RegexStates.CreateCdNewstate` | libmissing/regex_internal.c:1665-1736 | the state's nodes are exactly the entrance nodes whose constraint holds, in order, and its flags say what they should |
| `RegexStates.KeepSatisfied` | libmissing/regex_internal.c:1687-1728 | removing failing nodes one by one, with indices adjusted, leaves exactly the satisfied ones |
| `RegexStates.SatisfiedMembers` | libmissing/regex_internal.c:1720-1727 | a node is kept if and only if its constraint holds in the context |
| `RegexStates.ConstraintMeaning` | libmissing/regex_internal.h:562-566 | each of the four bits against what is known of the preceding place: bit 0x001 wants a word character there, 0x002 none, 0x010 a newline, 0x040 the start of the buffer; no other bit matters |
| `RegexStates.AnchorMeaning` | libmissing/regex_internal.h:236-248 | what each anchor asks of the preceding place |
| `RegexStates.StateMeaning` | libmissing/regex_internal.c:1665-1736 | a state keeps an entrance node if and only if its four bits agree with the context; those that consume a byte are set apart; it is a halt state if one of them is END_OF_RE, and has a constraint if one of them does |
| `RegexStates.SatisfiedStrict` | libmissing/regex_internal.c:1720-1727 | the order of the nodes is kept |
| `RegexFastmap.CompilePattern` | libmissing/regcomp.c:272-290 | from tree to filter: if a byte is not marked, no prefix of any string that starts with it is in the regex's language; unless a bracket matches nothing, a byte is marked if and only if it begins a word of the language or the empty word is one; the pattern is said to match the empty word if and only if it does and no period can be tested first |
| `RegexFastmap.MarkedStarts` | libmissing/regcomp.c:306-434 | where no node is a dead end, a marked byte begins an accepted word unless the empty word is accepted |
| `RegexFastmap.ScanStops` | libmissing/regcomp.c:306-434 | the scan reaches END_OF_RE if and only if the empty word is in the language and the closure holds no period |
| `RegexFastmap.CompileFastmapIter` | libmissing/regcomp.c:306-434 | a byte is marked if and only if it was before or some state node starts with it; when the state can be null |
| `RegexFastmap.CreateInitialState` | libmissing/regcomp.c:1024-1102 | the initial state's nodes are the closure of the first node, without constraints |
| `RegexFastmap.FirstByte` | libmissing/regcomp.c:306-434 | an accepting run first leaves the closure through a test of its first byte, or stops there on the empty word |
| `RegexFastmap.UnmarkedRejected` | libmissing/regcomp.c:306-434 | nothing that starts with an unmarked byte is accepted, and neither is the empty word |
| `Inet.InetNtop6` | libmissing/inet_ntop.c:151-256 | the compressed text and its NUL, or an error when they do not fit in the size given; the 46-byte buffer is never overrun |
| `Inet.FindBest` | libmissing/inet_ntop.c:174-206 | the run compressed is the first among the longest runs of zero words, and at least two words long (section 4.2 of RFC 5952) |
| `Inet.Format` | libmissing/inet_ntop.c:208-244 | the formatting loop writes the text of the address, both embedded IPv4 forms and runs at start, middle or end included |
| `Inet.InetNtop4` | libmissing/inet_ntop.c:124-147 | the dotted text, or an error exactly when it is longer than the size given; within a buffer of that size the NUL overruns if and only if the text is exactly that long |
| `Inet.InetPton4` | libmissing/inet_pton.c:112-156 | the parsing loop; dst is untouched unless the text is accepted |
| `Inet.InetPton6` | libmissing/inet_pton.c:171-264 | a text, up to its NUL, is accepted if and only if it is one of an IPv6 address, which is then stored; dst is untouched otherwise |
| `InetGrammar.Parse6Exact` | libmissing/inet_pton.c:171-264 | the texts of an address: groups of hexadecimal digits in either case, zeros in front allowed, of at most 16 bits, with colons between; once "::" may stand for one zero word or more; the last part may be an IPv4 address; accepted if and only if the bytes come to 16, and read as those bytes |
| `InetGrammar.CaseBlind` | libmissing/inet_pton.c:189-202 | changing the case of hexadecimal letters changes nothing, accepted or not |
| `Inet.ShiftToEnd` | libmissing/inet_pton.c:243-258 | the overlapping shift moves the tail to the end and leaves zeros between |
| `InetText.RoundTrip6` | libmissing/inet_pton.c:171-264 | every IPv6 address is read back from its text, whichever run of zeros was left out |
| `InetText.PrintedReadBack6` | libmissing/inet_ntop.c:151-256 | what `inet_ntop6` prints, `inet_pton6` reads back (section 2.2 of RFC 4291) |
| `InetGrammar.PrintedForm` | libmissing/inet_ntop.c:208-244 | the text printed, on the bytes: ::a.b.c.d if the first twelve are zero and the next two are not both, ::ffff:a.b.c.d if ten are zero and two are 255, else the words with colons between, and "::" for the run |
| `InetGrammar.HexPlain` | libmissing/inet_ntop.c:237-237 | a word is printed in small hexadecimal digits without zeros in front, and they denote it |
| `InetGrammar.DecimalPlain` | libmissing/inet_ntop.c:130-130 | an octet is printed in decimal digits without zeros in front, and they denote it |
| `InetText.Parse4Exact` | libmissing/inet_pton.c:112-156 | a text is accepted as an IPv4 address if and only if it is the text `inet_ntop4` prints for it |
| `InetText.RoundTrip4` | libmissing/inet_ntop.c:124-147 | every IPv4 address is read back from its text |
| `InetText.TextLength` | libmissing/inet_ntop.c:161-161 | the text and its NUL fit in 46 bytes, for any address |
| `Mktime.LeapYearGregorian` | libmissing/mktime.c:144-154 | `leapyear` is the Gregorian rule for year + 1900, whatever the sign of year |
| `Mktime.DaysBeforeFloor` | libmissing/mktime.c:206-214 | counting fourth years, less centuries, plus fourth centuries agrees with adding up 365- and 366-day years one by one, before 1900 too |
| `Mktime.LeapDaysFloor` | libmissing/mktime.c:206-214 | the counts of the code, with truncating division and shifts, are those floors for every year, negative ones included |
| `Mktime.YdhmsDiff` | libmissing/mktime.c:199-224 | `ydhms_diff` is the number of seconds between two dates |
| `Mktime.LeapDaysFit` | libmissing/mktime.c:207-213 | every int computed on the way to the leap days, left to right, is in range, for any years the callers pass |
| `Mktime.SecondsApartFit` | libmissing/mktime.c:217-223 | every time_t computed on the way to the seconds, left to right, is in range |
| `Mktime.ShrFloor` | libmissing/mktime.c:92-97 | the portable shift rounds toward minus infinity |
| `Mktime.TimeAvgFloor` | libmissing/mktime.c:226-231 | the average is the floor of half the sum, between its arguments |
| `Mktime.AddOkExact` | libmissing/mktime.c:236-271 | both overflow tests, with and without wrapping arithmetic, hold if and only if the sum is representable |
| `Mktime.UnsignedAddOkExact` | libmissing/mktime.c:239-243 | for an unsigned time_t, the test reads b as signed and says whether the sum wraps around |
| `Mktime.GuessTime` | libmissing/mktime.c:280-302 | the guess is exact whenever representable, and repeats t only if t was the time asked for |
| `Mktime.RangedConvert` | libmissing/mktime.c:303-340 | the search terminates and converts the nearest convertible time; on an interval around 0 it fails exactly when the interval ends at 0 on the side of t |
| `MktimeInverse.MktimeInternal` | libmissing/mktime.c:349-571 | for any conversion whose convertible times are an interval around 0: a time returned converts to the fields stored. If the search matched and either tm_isdst is negative, or both are zero, or both positive, the time is the one found with the seconds put back, so its fields are those asked for if their seconds were in range, and one second later if a leap second was found; if one is zero and the other positive, it comes from the first neighbour whose tm_isdst is negative or agrees so. When it fails, and the offset left, exactly. At a fixed offset and with such a tm_isdst the exact inverse for any out-of-range fields if and only if both the time and the time with its seconds set aside are convertible, and the offset left is the conversion's |
| `MktimeInverse.Probe` | libmissing/mktime.c:476-502 | the search ends at the first probe that finds the date or that swings back to the last but one with a tm_isdst to stay with, spelled out by signs, and after six at the latest |
| `MktimeInverse.FixedEnd` | libmissing/mktime.c:476-502 | at a fixed offset: at most two probes, one if the offset was right, never an oscillation, and no match when the time is not convertible |
| `MktimeInverse.SearchDst` | libmissing/mktime.c:504-548 | the first neighbour whose tm_isdst is unknown or has the sign requested, or any if none is requested, leads to the time it ends with: that neighbour corrected by what its date is off, and clamped; if none serves the time stays; the time and fields returned belong together |
| `MktimeInverse.NeighbourReach` | libmissing/mktime.c:518-536 | the neighbours are one stride of 601200 seconds before, one after, two before and so on, up to half of 536454000 seconds and a stride away |
| `MktimeInverse.AdjustSeconds` | libmissing/mktime.c:552-567 | the seconds set aside are put back exactly, or the call fails because the sum or its conversion does |
| `MktimeInverse.NextGuessHits` | libmissing/mktime.c:407-414 | with the offset that was left, the first guess of any later search is already its target |
| `MktimeInverse.OffsetLearned` | libmissing/mktime.c:550-551 | the offset stored is the conversion's, even where it had to wrap around |
| `MktimeInverse.RequestMeaning` | libmissing/mktime.c:375-394 | the year and day searched for mean what ISO C99 section 7.23.2.3 says of out-of-range months and days |
| `MktimeInverse.MonthTable` | libmissing/mktime.c:157-166 | `__mon_yday` holds the sums of the month lengths |
| `MktimeInverse.InvertsConversion` | libmissing/mktime.c:349-571 | the fields of any converted time have that time as their target |
| `MktimeInverse.NormalizesFields` | libmissing/mktime.c:349-571 | the date at the target is the one normal date as many seconds into the calendar as the fields asked for |
| `MktimeInverse.DateUnique` | libmissing/mktime.c:199-224 | two normal dates the same number of seconds into the calendar are the same date |
| `MktimeInverse.FixedOffsetExists` | libmissing/mktime.c:342-348 | there is such a conversion for every offset |
| `MktimeInverse.SecondsCanMiss` | libmissing/mktime.c:398-407 | a date whose time exists and whose search with its seconds set aside leaves the range |
| `Mbrtowc.MbState.MbRToWc` | libmissing/mbrtowc.c:37-321 | -2 if and only if the bytes so far are a proper prefix of an encoding, -1 if and only if they begin none, else the next character and the bytes it took; none of the three `abort` calls is reached |
| `Mbrtowc.MbState.Gather` | libmissing/mbrtowc.c:64-92 | the bytes shown to the decoder are those carried over and enough of the input |
| `Mbrtowc.MbState.CarryOver` | libmissing/mbrtowc.c:298-313 | the input is appended to the bytes carried over |
| `Mbrtowc.IncompleteExact` | libmissing/mbrtowc.c:131-186 | the tests on the bytes hold if and only if they begin some encoding |
| `Mbrtowc.Decoded` | libmissing/mbrtowc.c:100-100 | what the grammar of section 4 of RFC 3629 accepts is the encoding of the character it yields |
| `Mbrtowc.Encoded` | libmissing/mbrtowc.c:100-100 | every encoding of section 3 of RFC 3629 is accepted as its character |
| `Mbrtowc.Shown` | libmissing/mbrtowc.c:102-129 | four bytes are enough to tell, and a character found ends in the new bytes |
| `Mbrtowc.DecodeChunks` | libmissing/mbrtowc.c:37-321 | chunk independence: however a stream is cut into calls, the caller gets the same characters, the same error and the same bytes left over |
| `Mbrtowc.DecodeAppend` | libmissing/mbrtowc.c:37-321 | decoding in two parts is decoding the first and then what it left over with the second |
| `Mbrtowc.DecodeEncoded` | libmissing/mbrtowc.c:37-321 | decoding undoes encoding of any text, with an unfinished character behind it left over |
| `Mbrtowc.DecodeMeaning` | libmissing/mbrtowc.c:37-321 | what is decoded is the text the stream encodes, up to bytes that begin no encoding |
| `SignalMask.Signals.SigProcMask` | libmissing/sigprocmask.c:221-290 | one step of the abstract machine: the new mask, what is no longer pending, and each pending signal that is unblocked raised once, in order; the old mask; EINVAL; the `abort` is not reached |
| `SignalMask.Signals.Deliver` | libmissing/sigprocmask.c:191-202 | a signal that arrives becomes pending if blocked and otherwise acts, its handler uninstalled first; blocked signals keep `blocked_handler` installed |
| `SignalMask.Signals.RplSignal` | libmissing/sigprocmask.c:292-330 | sets and returns the application's own handler whether or not the signal is blocked |
| `SignalMask.Signals.SigPending` | libmissing/sigprocmask.c:204-215 | exactly the pending signals |
| `SignalMask.Signals.UnblockOne` | libmissing/sigprocmask.c:268-280 | the handler kept aside is reinstalled and `blocked_handler` was what it replaced |
| `SignalMask.Signals.Execute` | libmissing/sigprocmask.c:184-330 | refinement: every run of the emulation is the same run of the machine, and keeps: blocked if and only if `blocked_handler` is installed, pending only if blocked |
| `SignalMask.ActsOnceOnUnblock` | libmissing/sigprocmask.c:221-290 | blocked, then any run that keeps it blocked, then unblocked: the actions of the signal that are new in the log are exactly one, by the disposition it then has, if it arrived at all in between, and otherwise none |
| `SignalMask.HeldBack` | libmissing/sigprocmask.c:191-202 | over any run that keeps it blocked a signal does nothing, and is pending afterwards if and only if it was before or has arrived; its disposition is the last one set |
| `SignalMask.ChangeMaskMeaning` | libmissing/sigprocmask.c:221-290 | what a change of the mask does to the mask, to what is pending, and to each signal: the exact sequence of its new actions |
| `SignalMask.MaskMeaning` | libmissing/sigprocmask.c:221-290 | signal by signal: blocking adds those given that can be caught and no other, unblocking takes away those given, setting replaces the mask; a signal freed acts if it was pending, its handler uninstalled |
| `SignalMask.ActsWhenFree` | libmissing/sigprocmask.c:292-330 | over any run that never blocks it a signal acts each time it arrives, by what the application last asked for, and by default once its handler has run |
| `SignalMask.RunSound` | libmissing/sigprocmask.c:184-330 | over every run pending signals are blocked and blocked signals can be caught |
| `SignalMask.BlockThenRestore` | libmissing/sigprocmask.c:221-290 | blocking and setting the old mask back at once changes nothing |
| `PrintfParse.PrintfParse` | libmissing/printf-parse.c:82-615 | the parser yields the directives, each what its text means, the table of their types, the end of the format and the longest width and precision; invalid if and only if the format is not composed of directives that agree on their arguments; out of memory only where a size overflows |
| `PrintfText.ParsedText` | libmissing/printf-parse.c:82-615 | told from the text: which formats are accepted, and of each directive its flags, its width and precision, the argument of each, numbered or the next one in turn, its conversion, its type and its argument |
| `PrintfText.AcceptedExactly` | libmissing/printf-parse.c:82-615 | a format is accepted if and only if it is composed of literal text and written directives that want no two types of one argument and no argument that a size cannot number |
| `PrintfText.FlagsMeaning` | libmissing/printf-parse.c:177-220 | each flag is set if and only if its character is among the flags |
| `PrintfText.TypeTable` | libmissing/printf-parse.c:445-492 | the type of an argument for each size specifier and integer or floating-point conversion |
| `PrintfText.OtherTypes` | libmissing/printf-parse.c:493-558 | the type of an argument for characters, strings, pointers, counts and '%', by size specifier |
| `PrintfText.SingleDirective` | libmissing/printf-parse.c:334-580 | '%', any size specifiers and a conversion parse to one directive, which takes the first argument with the type of that table |
| `PrintfFormat.ParsedWell` | libmissing/printf-parse.c:82-615 | directives in order and disjoint, each starting at a '%', no '%' in the text between, the end recorded is the format's; every use of an argument is in the table with its type, and every typed position is used |
| `PrintfFormat.LaidOrdered` | libmissing/printf-parse.c:139-611 | each directive ends before any later one begins |
| `PrintfFormat.RejectedExactly` | libmissing/printf-parse.c:82-615 | a format is rejected if and only if, told from its text alone, a directive has a bad position or an unknown conversion, or the directives want two types of one argument, or an argument that no size can number |
| `PrintfFormat.ParsedUses` | libmissing/printf-parse.c:100-134 | the table registers the uses of all directives in turn; without a '$' they use the arguments one after the other |
| `PrintfFormat.RegisterFits` | libmissing/printf-parse.c:100-134 | registering keeps the table exact, and fails if and only if an earlier use of that position has another type |
| `PrintfParse.Arguments.RegisterArg` | libmissing/printf-parse.c:100-134 | the growing array holds the table with the argument registered |
| `PrintfParse.Directives.Append` | libmissing/printf-parse.c:581-601 | the growing array holds one directive more, with room for the last entry |
| `PrintfFormat.DirectiveText` | libmissing/printf-parse.c:139-580 | the pointers of a directive delimit its width and precision, '*' or digits, in order, and its last character is the conversion |
| `PrintfFormat.NumberSaturates` | libmissing/printf-parse.c:163-165 | the saturating loop computes the decimal value, or SIZE_MAX |
| `PrintfParse.LongestCovers` | libmissing/printf-parse.c:613-614 | no width or precision is longer than the longest |
| `PrintfParse.LongestReached` | libmissing/printf-parse.c:613-614 | some directive has a width, or a precision, as long as the longest, if any has one at all |
| `PrintfParse.FetchArgs` | libmissing/printf-args.c:35-187 | succeeds if and only if every position is typed, with each argument taken by its type, in order |
| `PrintfParse.ValueMeaning` | libmissing/printf-args.c:43-106 | characters and shorts are cut to their size, null strings replaced, and everything else is taken as it is |
| `PrintfParse.ParseAndFetch` | libmissing/vasnprintf.c:1779-1789 | after a successful parse, fetching succeeds if and only if every position of the table is used by some directive; always, without a '$' |
| `PrintfFormat.UnnumberedFetchable` | libmissing/printf-parse.c:100-134 | a format without numbered arguments leaves no gap in the table |
| `Memchr.MemChr` | libmissing/memchr.c:56-169 | the first index that holds c, or none, for every buffer, length, address and byte order |
| `Memchr.WordTest` | libmissing/memchr.c:142-151 | the longword test holds if and only if some byte of it in memory is c |
| `Memchr.ZeroTestExact` | libmissing/memchr.c:109-140 | despite borrows between bytes the test holds if and only if some byte is zero |
| `Intprops.StrlenBound` | libmissing/intprops.h:108-111 | every value of b bits, and 2 ** b, fits in INT_BITS_STRLEN_BOUND (b) decimal digits |
| `Intprops.StrlenTight` | libmissing/intprops.h:108-111 | below 2621 bits the bound is tight |
| `Intprops.StrlenSlack` | libmissing/intprops.h:108-111 | at 2621 bits it is not |
| `Intprops.TypeStrlenBound` | libmissing/intprops.h:113-123 | every value of a type, signed or not, fits in INT_STRLEN_BOUND with its sign |
| `Intprops.AdditiveExact` | libmissing/intprops.h:164-182 | the tests for sums, differences and negation hold if and only if the result is out of range, and do not overflow themselves |
| `Intprops.MultiplyExact` | libmissing/intprops.h:184-200 | the test for products holds if and only if the product is out of range, and none of its divisions overflows |
| `Intprops.DivideExact` | libmissing/intprops.h:202-213 | the test for quotients holds if and only if the quotient is out of range |
| `Intprops.LeftShiftExact` | libmissing/intprops.h:215-225 | the test for shifts holds if and only if the result is out of range, except for the operand -(2 ** (k - b)) of a symmetric type |
| `Intprops.LeftShiftMisses` | libmissing/intprops.h:215-225 | in every symmetric type, for every shift count above 0, that operand shows no overflow and its result is out of range |

## Left out

- RegexCompile.ReDfa.Analyze: what the group map says is stated for trees in which no group is absorbed by two others or by an absorbed one. A tree with its groups numbered is such a tree, and joining, grouping and repeating keep to that (`RegexGroups.NumberedAlike`, `RegexRepeat.Repeat`); the parser that would have to is not part of this model.
- Back-references, anchors and the constraints they put on nodes (`duplicate_node_closure`): the compiler is modelled for trees without them; the state table does model constraints.
- Multibyte characters, collation, bracket expressions read from the locale, case folding and `optimize_utf8`: brackets are given as sets of bytes.
- OP_PERIOD matches every byte: the exclusion of newline and NUL by syntax bits is in the matcher.
- The lexer: `parse_dup_op` reads a sequence of tokens; what `fetch_token` does with backslashes is not modelled.
- `mark_opt_subexp` and the `opt_subexp` bit: only the missing matcher reads it.
- The storage of tree nodes is one growing sequence and a pointer is a position in it; visitors, function pointers in C, are two datatypes, each with a constructor that holds any function.
- malloc failure and freeing, errno and locks; so also the error by which a visitor ends a walk early, which only a failing malloc causes. In `PrintfParse` a size that overflows is modelled.
- Shallow copies of node sets: closures and states hold sequences, so buffers that the original shares between sets are not aliased. The in-place algorithms themselves are in `NodeSetArray`.
- `re_acquire_state`, the variant without a context: it looks a state up by comparing `nodes` instead of `entrance_nodes` and ignores the context.
- The buckets of the state table are found by the remainder of the hash by the table size, which for a power of two is `hash & mask`.
- Matching (`regexec.c`), the `re_string_*` buffers and the parser of whole expressions.
- `inet_ntop` and `inet_pton` dispatch on the address family; `sprintf` is modelled by the digits it writes.
- The repair of overflow for a 32-bit time_t; `localtime` and `mktime` proper, which only pass arguments on; tm_wday.
- MktimeInverse.SearchDst: that the time it ends with has the tm_isdst asked for is not proved, because the original does not check it either: it depends on the time zone database.
- The int in which `printf_parse` counts size specifiers does not overflow in the model; the Windows, Mac and unistdio extensions are not modelled.
- The null string of `mbrtowc` (a call with the single byte NUL), the shared internal state, and encodings other than UTF-8.
- SIGABRT_COMPAT, the emulated SIGPIPE, and signals that arrive in the middle of an operation; a handler that itself changes masks is not modelled, it runs between operations. A sigset_t is modelled by its bits.
- The INT_<op>_OVERFLOW macros whose operands differ in signedness.
- MemChr: longwords have 64 bits.
- `str-two-way.h`, `strstr`, `memmem`, sockets, file and terminal routines: I/O plumbing, or easier members.
