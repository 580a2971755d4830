# datastruct in Dafny

This project is a Dafny model of the algorithmic core of the `datastruct`
repository. It covers three groups:

- **A single-node Raft prototype** (`cap/raft`). `RaftNode.Node` holds one
  node's state: its log, `current_term`, `vote_for`, `vote_count`, `state`,
  the per-peer `next_index` / `match_index` maps and `last_commit_index`. It
  has one method per message handler. Messages a handler sends go to an
  outbox of envelopes; nested handler calls are not followed. Around it:
  - `RaftLogManager.LogManager` is the 0-based in-memory log;
  - `RaftNode.StateMachine` is the key/value store the log is applied to;
  - `RaftCommunication.CommunicationManager` is the in-process router that
    picks the recipients and the handler of each RPC type code;
  - `RaftTypes` holds the RPC records of `entry_log.py`.
- **Dictionary matching for word segmentation** (`nlp/commom`):
  - `NlpTrie` is the dictionary trie with longest-match and full-match
    parsing, and `TrieDict` with its prefix and suffix tries;
  - `DoubleArrayTrie` is the double-array lookup and the longest-match
    searcher over given `base` / `check` / `value` arrays;
  - `BasicSeg` holds the brute-force full, forward, backward and
    bidirectional segmenters;
  - `SegTool` holds `count_single_char`.
- **Search trees** (`tree/`):
  - `BinarySearchTree` is the plain BST, with a sentinel root reached
    through `_root.next`;
  - `AvlTree` and `RedBlackTree`;
  - `BalanceTree` is the B-tree and `BalancePlusTree` the B+-tree, both of
    order `m`, sharing the node functions of `BNodes`;
  - `PrefixTree` is the 27-slot counting word trie.
  - `BaseTree` holds the node values and in-order facts shared by the binary
    trees.

Python exceptions that the code can raise become results:
- `Option.None` where the source returns `None`;
- small outcome datatypes (`KeyError`, `AttributeError`, `IndexError`) where
  it raises.

Trees are values: each operation returns the new subtree, and a class
holding the root (`BalanceTree.BalanceTree`, `PrefixTree.TrieTree`, …)
reassigns it. Each class method states its new state through a function
of the old one. The lemmas then prove that function keeps the tree's
invariants (order, balance, colours, leaf depth, occupancy) and changes
exactly the intended set of values.

Where the code disagrees with its own comments or with the evident intent,
the place is listed under Findings: one member models the code as written
and exhibits the input that shows the difference, and a corrected member
carries the intended property. The class methods built on such a place run
the corrected member: their rows in the table below say "corrected", and
each has a line under Left out naming what the code as written does
instead. Everywhere else the model follows the code.

## Model

| member | source | states |
|---|---|---|
| RaftTypes.Rpc.TypeCode | cap/raft/entry_log.py:56-141 | each RPC kind carries its own type code in 1..4, and a code identifies the kind: 1 append request, 2 append response, 3 vote request, 4 vote response |
| RaftLogManager.LogManager.constructor | cap/raft/log_manager.py:10-19 | a new manager starts with an empty log (no file to restore from) |
| RaftLogManager.LogManager.LastLogIndex | cap/raft/log_manager.py:42-48 | the last position is one less than the log length, and is -1 exactly when the log is empty |
| RaftLogManager.LogManager.GetTermByIndex | cap/raft/log_manager.py:58-66 | the term stored at a position inside the log, and -1 for any position outside it |
| RaftLogManager.LogManager.LastLogTerm | cap/raft/log_manager.py:50-56 | the term of the last log, and -1 for an empty log |
| RaftLogManager.LogManager.AppendLog | cap/raft/log_manager.py:68-76 | the log grows by exactly the given record at its end |
| RaftLogManager.LogManager.DeleteLogs | cap/raft/log_manager.py:78-86 | keeps the records before the index (nothing for an index at or below 0, everything for one past the end) |
| RaftLogManager.LogManager.GetLogs | cap/raft/log_manager.py:88-98 | Python slice semantics, element by element: the result is the run of consecutive records starting at the begin index clamped at 0; it stops before the end index when that is given, positive and at most the length, before the position counted from the back when the end is negative, and otherwise runs to the end of the log; empty when the bounds cross |
| RaftLogManager.LogManager.GetLogByIndex | cap/raft/log_manager.py:100-108 | a record exactly for the positions inside the log, and it is the one stored there |
| RaftLogManager.AppendThenReadLast | cap/raft/log_manager.py:42-108 | after an append, the last index, the last term, the lookup by last index and the full read all report the appended record |
| RaftLogManager.ZeroEndReadsSuffix | cap/raft/log_manager.py:95-98 | an end index of 0 is falsy and reads to the end, just like no end index |
| RaftLogManager.DeleteKeepsPrefix | cap/raft/log_manager.py:84 | deletion leaves each record before the index in its place |
| RaftCommunication.CodeOf | cap/raft/communication.py:34-41 | each handler is registered under one code in 1..4 |
| RaftCommunication.Dispatch | cap/raft/communication.py:34-41 | a handler is chosen exactly for codes 1..4, and it is the handler registered under that code |
| RaftCommunication.DispatchMatchesKind | cap/raft/communication.py:34-41 | every RPC reaches the handler for its own kind, and distinct handlers have distinct codes |
| RaftCommunication.Fanout | cap/raft/communication.py:18-25 | a broadcast makes at most one delivery per registered node |
| RaftCommunication.FanoutMembers | cap/raft/communication.py:18-25 | a broadcast reaches exactly the registered nodes other than the sender, for append and vote requests, each through the handler of the RPC's kind |
| RaftCommunication.FanoutOncePerNode | cap/raft/communication.py:18-25 | with distinct ids no node is reached twice |
| RaftCommunication.ResponsesAreNotBroadcast | cap/raft/communication.py:18-25 | responses (types 2 and 4) are sent to no one by a broadcast |
| RaftCommunication.CommunicationManager.constructor | cap/raft/communication.py:9-10 | starts with no registered node |
| RaftCommunication.CommunicationManager.AppendNode | cap/raft/communication.py:43-49 | registers the node under its id, replacing an earlier node with that id, keeps registration order and points the node back at the manager |
| RaftCommunication.CommunicationManager.SendTo | cap/raft/communication.py:27-41 | delivers to the named node through the handler of the RPC's kind, and nothing for an unknown type code |
| RaftCommunication.CommunicationManager.SendToAll | cap/raft/communication.py:18-25 | the deliveries are exactly the broadcast fan-out over the registered nodes in registration order |
| RaftCommunication.BroadcastReachesEachOnce | cap/raft/communication.py:18-25 | each registered node other than the sender receives a broadcast request exactly once, and every other id receives nothing |
| RaftNode.LastOfContiguous | cap/raft/node_application.py:255-266 | on a log indexed 1..n the reported last index is n, the length of the log (0 when it is empty), and after any record is appended the pair reported is that record's term and index |
| RaftNode.FirstPos | cap/raft/node_application.py:308-311 | the position of the first record carrying the index: it carries it and no earlier record does; none when no record does |
| RaftNode.FindLog | cap/raft/node_application.py:300-312 | a found record is in the log and carries the index; none is found only when no record carries it |
| RaftNode.ClearByMatch | cap/raft/node_application.py:314-326 | index 0 empties the log; otherwise the log is cut just after the first record carrying the index, which becomes its last record, and is left alone when no record carries it |
| RaftNode.NewLog | cap/raft/node_application.py:87-91 | the new record has the current term, the given entries and the index one past the last (1 for an empty log) |
| RaftNode.AppendBroadcast | cap/raft/node_application.py:93-102 | the broadcast carries the new record, the leader's term, id and commit index, and the previous last record's term and index ((0, 0) for an empty log) |
| RaftNode.CommitAfterAppend | cap/raft/node_application.py:127-128 | the commit index changes only when the leader's is larger, and then becomes the smaller of the leader's and the previous index |
| RaftNode.Majority | cap/raft/node_application.py:297-298 | the majority is half the cluster size plus one, in true division |
| RaftNode.BackOffsCountDown | cap/raft/node_application.py:161-162 | successive failed responses walk a peer's match index down one record at a time, visiting every earlier index in turn, and then hold it at 0 |
| RaftNode.RetryRequest | cap/raft/node_application.py:164-171 | the retry carries no term, the current term as leader id, the record at the next index, and the previous record's index and term (0 and none when the match index names no record) |
| RaftNode.AcceptedAppendOnContiguousLog | cap/raft/node_application.py:120-133 | on a log indexed 1..n, an accepted append keeps exactly the first previous-index records and adds the carried one, and the log stays indexed 1..n+1 when the carried record follows the previous one |
| RaftNode.CommitBoundedAfterAppend | cap/raft/node_application.py:124-130 | on such a log the commit index after an accepted append is at most the last index the follower then holds |
| RaftNode.UpToDateIsTotal | cap/raft/node_application.py:213-214 | the vote rule is the lexicographic order on (last term, last index): reflexive, total and antisymmetric |
| RaftNode.MajorityInIntegers | cap/raft/node_application.py:297-298 | reaching the real-valued majority means twice the votes is at least the cluster size plus two |
| RaftNode.NewLogKeepsContiguous | cap/raft/node_application.py:87-101 | appending the new record keeps a log indexed 1..n indexed 1..n+1 |
| RaftNode.ApplyAllKeepsOtherKeys | cap/raft/node_application.py:364-379 | keys no entry writes keep their presence and value in the state machine |
| RaftNode.ApplyAllLastWriteWins | cap/raft/node_application.py:364-379 | a written key holds the value of the last entry that writes it |
| RaftNode.StateMachine.constructor | cap/raft/node_application.py:361-362 | the state machine starts empty |
| RaftNode.StateMachine.ApplyEntry | cap/raft/node_application.py:364-370 | the entry's key is set to its value and nothing else changes |
| RaftNode.StateMachine.ApplyEntries | cap/raft/node_application.py:372-379 | the dictionary becomes the one obtained by writing the entries in order |
| RaftNode.Node.constructor | cap/raft/node_application.py:19-63 | a node starts as a candidate in term 0, with no vote, zero counts and indices, empty maps, an empty log and an empty state machine |
| RaftNode.Node.FindLogByIndex | cap/raft/node_application.py:300-312 | the scan returns the first record carrying the index, or none |
| RaftNode.Node.ClearByMatchIndex | cap/raft/node_application.py:314-326 | the log becomes the cut log described by ClearByMatch |
| RaftNode.Node.ResetMajorityCount | cap/raft/node_application.py:292-298 | the majority becomes half the cluster size plus one |
| RaftNode.Node.AppendRequest | cap/raft/node_application.py:77-102 | the log grows by the new record and the matching broadcast is sent |
| RaftNode.Node.ChangeState | cap/raft/node_application.py:268-276 | the role becomes the target; becoming leader adds one empty heartbeat record and broadcasts it, any other role leaves log and messages alone |
| RaftNode.Node.DealAppendRequest | cap/raft/node_application.py:104-137 | a request with a term not below the local one and a matching previous record cuts the log, updates the commit index and appends the carried record; otherwise nothing changes; the reply says which, and marks a heartbeat |
| RaftNode.Node.DealAppendResponse | cap/raft/node_application.py:139-172 | a higher term makes the node a follower; a non-heartbeat success advances the peer's next and match index; a failure backs them off and sends the retry request |
| RaftNode.Node.VoteRequest | cap/raft/node_application.py:174-194 | the term goes up by one, votes reset, the majority is recomputed and a vote request with the last record's term and index is broadcast |
| RaftNode.Node.DealVoteRequest | cap/raft/node_application.py:196-220 | the vote is granted exactly when the request's term is not below the local one and the candidate's log is at least as up to date; a grant records the candidate and adopts its term; the reply carries the term held before |
| RaftNode.Node.DealVoteResponse | cap/raft/node_application.py:222-242 | a missing reply or a higher term makes the node a follower; a granted reply for the current term adds a vote, and a candidate reaching the majority becomes leader and sends two empty append requests |
| SegTool.CountSingleChar | nlp/commom/tool.py:16-22 | the count is at most the list length, is 0 exactly when no element has length 1 and is the length exactly when every element has length 1 |
| SegTool.CountSingleCharAdditive | nlp/commom/tool.py:16-22 | the count of a concatenation is the sum of the counts |
| SegTool.TriplesCountZero | nlp/commom/tool.py:16-22 | a list of (word, start, end) triples never counts anything, since each element has length 3 |
| BasicSeg.TilesSpell | nlp/commom/basic_seg_tool.py:20-64 | tokens that name pieces of the text and cover a range without gap or overlap spell out exactly that range of the text |
| BasicSeg.FullySegment | nlp/commom/basic_seg_tool.py:4-17 | every token is a dictionary word at its own positions, every occurrence of every dictionary word is listed, and the list is strictly ordered by start then end |
| BasicSeg.LongestEnd | nlp/commom/basic_seg_tool.py:30-37 | the word taken at a position is the longest dictionary word starting there, or the single character when there is none longer |
| BasicSeg.ForwardFromTiles | nlp/commom/basic_seg_tool.py:20-40 | forward matching covers the rest of the text without gap or overlap |
| BasicSeg.ForwardFromLongest | nlp/commom/basic_seg_tool.py:20-40 | each forward token is the longest dictionary word at its start, or a single character |
| BasicSeg.ForwardSpellsText | nlp/commom/basic_seg_tool.py:20-40 | the forward tokens spell out the whole text |
| BasicSeg.ForwardSegment | nlp/commom/basic_seg_tool.py:20-40 | the loop produces exactly the forward maximum matching |
| BasicSeg.EarliestStart | nlp/commom/basic_seg_tool.py:53-61 | the word taken ending at a position starts at the earliest position giving a dictionary word, or is the single character |
| BasicSeg.BackwardUpToTiles | nlp/commom/basic_seg_tool.py:43-64 | backward matching covers the text without gap or overlap |
| BasicSeg.BackwardUpToLongest | nlp/commom/basic_seg_tool.py:43-64 | each backward token is the longest dictionary word ending at its end, or a single character |
| BasicSeg.BackwardSpellsText | nlp/commom/basic_seg_tool.py:43-64 | the backward tokens, in position order, spell out the whole text |
| BasicSeg.BackwardSegment | nlp/commom/basic_seg_tool.py:43-64 | the loop produces exactly the backward maximum matching, each token put in front |
| BasicSeg.ChooseIsFewerWordsElseBackward | nlp/commom/basic_seg_tool.py:67-84 | the choice as written is the forward result when it has fewer words and the backward one otherwise: the single-character tie-break never picks the forward result |
| BasicSeg.WordItems | nlp/commom/basic_seg_tool.py:81 | the words of the tokens, one element per token |
| BasicSeg.ChooseByWordsPrefersFewerSingles | nlp/commom/basic_seg_tool.py:76-84 | with the tie-break counting single-character words, the result has the fewest words and, on a tie, the fewest single characters, and the forward one is kept exactly when it has fewer |
| BasicSeg.TieBreakKeepsMoreSingles | nlp/commom/basic_seg_tool.py:81-84 | two equally long segmentations of "abcd" where the choice as written keeps the one with more single characters, and the intended one does not |
| BasicSeg.BidirectionalSegment | nlp/commom/basic_seg_tool.py:67-84 | the result is the choice between forward and backward matching, and it spells out the whole text |
| NlpTrie.Val | nlp/commom/trie.py:59-63 | a key that reaches no node reads as no value |
| NlpTrie.NoNodeNoLonger | nlp/commom/trie.py:32-43 | once a piece of text reaches no node, no longer piece from the same start reaches one, which is why `transit` may stop at the first missing child |
| NlpTrie.SetStepsKeys | nlp/commom/trie.py:16-30 | the nodes after the first steps of setting a key are exactly the old nodes and the key's prefixes walked so far |
| NlpTrie.SetStepsKeeps | nlp/commom/trie.py:16-30 | setting a key keeps every existing node other than the key itself, with its value |
| NlpTrie.SetStepsNewNone | nlp/commom/trie.py:24-27 | an intermediate node created while setting a key has no value |
| NlpTrie.SetStepsEffect | nlp/commom/trie.py:16-30 | setting a key adds exactly its missing prefixes, new intermediate nodes get no value, existing intermediate nodes keep theirs, and the whole key gets the new value |
| NlpTrie.SetThenGet | nlp/commom/trie.py:59-71 | a non-empty key reads back as the value just set |
| NlpTrie.SetKeepsOtherValues | nlp/commom/trie.py:65-71 | setting a key changes the value at no other path, its own prefixes included |
| NlpTrie.SetKeepsWellFormed | nlp/commom/trie.py:65-71 | after setting a key the root still holds no value and every prefix of a node is a node |
| NlpTrie.SetAllKeepsWellFormed | nlp/commom/trie.py:78-86 | `update` keeps the trie well formed |
| NlpTrie.SetAllLastPairWins | nlp/commom/trie.py:78-86 | after `update` a non-empty key reads as the value of its last pair |
| NlpTrie.LastKeyed | nlp/commom/trie.py:100-111 | the end found from a position is the furthest one whose piece holds a value, and no piece ending further does |
| NlpTrie.LongestFromSound | nlp/commom/trie.py:88-116 | every hit of longest matching names its own piece of the text with that piece's value, and no longer valued piece starts there |
| NlpTrie.LongestFromOrdered | nlp/commom/trie.py:88-116 | the hits come in increasing position order without overlap |
| NlpTrie.LongestFromCovers | nlp/commom/trie.py:88-116 | every valued piece of the text has its start covered by some hit |
| NlpTrie.FullFromSound | nlp/commom/trie.py:118-142 | every hit of full parsing names its own piece of the text with its value, in (start, end) order |
| NlpTrie.FullFromStartsAfter | nlp/commom/trie.py:118-142 | hits reported from a state start after its begin position, or at it and ending no earlier than the current position |
| NlpTrie.FullFromMissesLaterStart | nlp/commom/trie.py:129-141 | full parsing is not complete: with the words "ab" and "b", the text "ab" yields only "ab", because reaching the end of the text stops the scan before start 1 is tried |
| NlpTrie.Trie.constructor | nlp/commom/trie.py:52-54 | a new trie is a bare root updated with the given pairs |
| NlpTrie.Trie.Get | nlp/commom/trie.py:59-63 | the empty key has no value, and a key with a value reaches a node |
| NlpTrie.Trie.Transit | nlp/commom/trie.py:32-43 | the walk reaches a node exactly when the whole path exists, and then it is that node |
| NlpTrie.Trie.Set | nlp/commom/trie.py:65-71 | the trie becomes the one described by SetKey and stays well formed |
| NlpTrie.Trie.Delete | nlp/commom/trie.py:73-76 | the key's node, if any, loses its value and stays in place; afterwards the key is not contained |
| NlpTrie.Trie.Update | nlp/commom/trie.py:78-86 | the pairs are set one after another |
| NlpTrie.LongestExit | nlp/commom/trie.py:101-115 | once the scan at a position has stopped at the furthest piece holding a value, longest matching reports that piece and goes on after it, or, when no piece held a value, goes on at the next position |
| NlpTrie.LongestSkips | nlp/commom/trie.py:99-116 | when no node starts with the character at a position, longest matching reports nothing there and goes on at the next position |
| NlpTrie.Trie.ParseLongest | nlp/commom/trie.py:88-116 | the loop produces exactly the longest-match hits |
| NlpTrie.Trie.ParseText | nlp/commom/trie.py:118-142 | the loop produces exactly the full-parse hits described by FullFrom |
| NlpTrie.Reverse | nlp/commom/trie.py:154-174 | reversal keeps the length |
| NlpTrie.ReverseReverse | nlp/commom/trie.py:174-175 | reversing twice gives the original |
| NlpTrie.ReverseInjective | nlp/commom/trie.py:154 | distinct words have distinct reverses |
| NlpTrie.ReverseSlice | nlp/commom/trie.py:174-178 | a piece of the reversed text is the reverse of the mirrored piece of the text |
| NlpTrie.ValAfterSet | nlp/commom/trie.py:65-71 | setting a key changes the value read at that key only |
| NlpTrie.SetKeepsMirrored | nlp/commom/trie.py:162-164 | setting a key in the prefix trie and its reverse in the suffix trie keeps the suffix trie holding under each reversed key what the prefix trie holds under the key |
| NlpTrie.PrefixPairs | nlp/commom/trie.py:153 | each word is paired with itself |
| NlpTrie.SuffixPairs | nlp/commom/trie.py:154 | each reversed word is paired with the word |
| NlpTrie.BuildMirrored | nlp/commom/trie.py:149-154 | the two tries built from the same words are well formed and mirrored |
| NlpTrie.BackwardAsWritten | nlp/commom/trie.py:173-179 | the hits come back to front with positions moved into the text |
| NlpTrie.BackwardFixed | nlp/commom/trie.py:173-179 | the same, with each word turned the right way round |
| NlpTrie.MovedBackReversed | nlp/commom/trie.py:175-177 | a hit found in the reversed text, moved back by `length - end` and `length - start`, lies within the text and carries the reverse of the text at its new positions |
| NlpTrie.BackwardAsWrittenWordsReversed | nlp/commom/trie.py:173-179 | as written, every backward hit lies in the text and carries the reverse of the text at its positions, and the hits come in increasing order without overlap |
| NlpTrie.BackwardAsWrittenOrdered | nlp/commom/trie.py:173-179 | as written, backward hits moved to the text's positions come in increasing order without overlap |
| NlpTrie.BackwardAsWrittenExample | nlp/commom/trie.py:173-179 | with the single word "ab", backward parsing of "ab" reports "ba" at positions 0..1 |
| NlpTrie.MovedHitSound | nlp/commom/trie.py:174-178 | a sound hit on the reversed text, moved back and turned round, is a sound hit on the text for the prefix trie |
| NlpTrie.BackwardFixedSound | nlp/commom/trie.py:173-179 | corrected backward parsing reports only pieces of the text that are words, with their values |
| NlpTrie.BackwardFixedOrdered | nlp/commom/trie.py:173-179 | corrected backward parsing lists its hits in increasing order without overlap |
| NlpTrie.TrieDict.constructor | nlp/commom/trie.py:149-154 | the prefix trie holds each word valued by itself, and the suffix trie holds each reversed word valued by the word |
| NlpTrie.TrieDict.Get | nlp/commom/trie.py:159-160 | the value read from the prefix trie is the one the suffix trie holds under the reversed key |
| NlpTrie.TrieDict.Set | nlp/commom/trie.py:162-164 | the key is set in the prefix trie and its reverse in the suffix trie, keeping them mirrored |
| NlpTrie.TrieDict.Delete | nlp/commom/trie.py:166-168 | the key's node in the prefix trie and the reversed key's node in the suffix trie lose their values and stay in place, nothing else changes, the tries stay mirrored, and every other key keeps its value |
| NlpTrie.TrieDict.ForwardParseLongest | nlp/commom/trie.py:170-171 | forward parsing is longest matching on the prefix trie |
| NlpTrie.TrieDict.BackwardParseLongest | nlp/commom/trie.py:173-179 | backward parsing as written: longest matching on the reversed text, mapped back; every hit lies in the text with its word reversed, and the hits come in increasing order without overlap |
| NlpTrie.TrieDict.ParseLongest | nlp/commom/trie.py:181-187 | the corrected backward parsing: every hit is a word of the text at its own positions, with its value, in order without overlap |
| DoubleArrayTrie.At | nlp/commom/double_array_trie.py:39-58 | a Python list index succeeds exactly for -len..len-1 (negative indices count from the back) and otherwise raises IndexError |
| DoubleArrayTrie.Transition | nlp/commom/double_array_trie.py:32-43 | a state other than -1 is the child position base[b]+hash(c)+1 whose check entry is base[b]; when both reads succeed and the check fails the result is -1 |
| DoubleArrayTrie.Accept | nlp/commom/double_array_trie.py:54-59 | a value is found only at a state whose end-of-word child checks itself and has a negative base, and it is the value at index -base-1 |
| DoubleArrayTrie.FailedWalkStaysFailed | nlp/commom/double_array_trie.py:45-52 | once the walk for a key has failed, every longer key fails too and reads as no value |
| DoubleArrayTrie.Check | nlp/commom/double_array_trie.py:123-129 | the end-of-word test of the searcher moves the cursor by one and keeps begin and state |
| DoubleArrayTrie.ScanStep | nlp/commom/double_array_trie.py:106-129 | every pass of `next`'s loop body that goes on makes progress: `begin` grows, or it stays and the cursor grows, and the state stays within the text |
| DoubleArrayTrie.CheckAccepts | nlp/commom/double_array_trie.py:123-129 | after a successful accept lookup, the end-of-word test records the hit's length, index and value exactly when the lookup found a word, and always moves the cursor by one |
| DoubleArrayTrie.RunScan | nlp/commom/double_array_trie.py:106-130 | the loop of `next`, run on its local state, ends exactly as the scan ScanLoop describes, with the same outcome and final state |
| DoubleArrayTrie.WalkOneMore | nlp/commom/double_array_trie.py:111-113 | one more successful step extends the searcher's walk by one character |
| DoubleArrayTrie.InvAfterStep | nlp/commom/double_array_trie.py:111-129 | a successful step followed by the end-of-word test keeps the scan invariant |
| DoubleArrayTrie.InvAfterRestart | nlp/commom/double_array_trie.py:115-122 | restarting one position later from the root keeps the scan invariant |
| DoubleArrayTrie.ScanLoopReports | nlp/commom/double_array_trie.py:98-130 | every hit the loop reports is a dictionary word that the searcher walks to, found at or after the start |
| DoubleArrayTrie.NextReports | nlp/commom/double_array_trie.py:98-130 | a hit reported by `next` from a cursor is a dictionary word at or after the cursor, ending before the new cursor, which has moved on |
| DoubleArrayTrie.NextAtEndReportsNothing | nlp/commom/double_array_trie.py:109-110 | once the cursor is at the end of the text, `next` reports nothing, even when the last hit it reported ended earlier |
| DoubleArrayTrie.SearchWalkIsWalk | nlp/commom/double_array_trie.py:111-113 | where the searcher's walk succeeds (and never computes the position -1), the lookup walk succeeds, and the searcher's state is the base entry of the lookup state |
| DoubleArrayTrie.HitIsLookup | nlp/commom/double_array_trie.py:123-128 | a word the searcher hits is a key that `dat[key]` finds, with the same value |
| DoubleArrayTrie.FailedOrErrorExtends | nlp/commom/double_array_trie.py:45-52 | a walk that raised IndexError on a prefix raises it on the whole key |
| DoubleArrayTrie.ReportedLocated | nlp/commom/double_array_trie.py:69-72 | the hit read from a reported scan is a word the searcher finds in the trie, named by its own positions, starting at or after where the scan began and ending before the new cursor |
| DoubleArrayTrie.LongestSearcher.constructor | nlp/commom/double_array_trie.py:80-96 | a searcher starts at the offset with no hit pending |
| DoubleArrayTrie.LongestSearcher.Next | nlp/commom/double_array_trie.py:98-130 | the call's outcome and the searcher's new cursor, begin, length, index and value are exactly those of the scan described by NextScan |
| DoubleArrayTrie.DoubleArrayTrie.NextHit | nlp/commom/double_array_trie.py:69-72 | a hit read after `next()` reports one is a word the searcher finds in the trie, named by its own positions, starting at or after the old cursor and ending before the new one |
| DoubleArrayTrie.DoubleArrayTrie.constructor | nlp/commom/double_array_trie.py:18-26 | the trie holds the given base, check and value arrays |
| DoubleArrayTrie.DoubleArrayTrie.Get | nlp/commom/double_array_trie.py:45-59 | the lookup walks the key from state 0 and tests for an end of word; a found value means the whole walk succeeded |
| DoubleArrayTrie.DoubleArrayTrie.ParseLongest | nlp/commom/double_array_trie.py:61-73 | every collected hit is a word the searcher finds in the trie, named by its own positions, and the hits come in order without overlap |
| BaseTree.OrderedInOrder | tree/binary_tree/binary_search_tree.py:17-35 | an ordered tree lists its values once each, in increasing order, and lists exactly its values |
| BaseTree.SameInOrder | tree/binary_tree/binary_search_tree.py:82-84 | trees with the same in-order sequence hold the same values, and one is ordered when the other is |
| BaseTree.InOrderKeys | tree/binary_tree/binary_search_tree.py:17-35 | the in-order sequence lists exactly the tree's values |
| BaseTree.IncreasingIsOrdered | tree/binary_tree/binary_search_tree.py:17-35 | a tree whose in-order sequence increases strictly is ordered |
| BaseTree.DropRoot | tree/binary_tree/binary_search_tree.py:80-84 | a tree listing the values of an ordered node's two subtrees in order is ordered and holds every value of the node but its own |
| BaseTree.Find | tree/binary_tree/binary_search_tree.py:37-51 | the search walks by comparison; a node found holds the value and lies in the tree, and on an ordered tree a node is found exactly when the value is present |
| BaseTree.RightLast | tree/binary_tree/binary_search_tree.py:82 | the rightmost node has no right child, lies in the tree, and holds the largest value when the tree is ordered |
| BaseTree.RemoveLast | tree/red_black_tree/red_black_tree.py:200-212 | unlinking the rightmost node leaves the in-order sequence without its last element |
| BinarySearchTree.InsertInto | tree/binary_tree/binary_search_tree.py:11-35 | insertion adds exactly the value, keeps the order, and leaves an ordered tree that already holds the value unchanged |
| BinarySearchTree.Graft | tree/binary_tree/binary_search_tree.py:82-107 | hanging a subtree below the rightmost node of another keeps both sets of values, and keeps the order when every value of the first is smaller than every value of the second |
| BinarySearchTree.DeleteFromRemoves | tree/binary_tree/binary_search_tree.py:73-128 | with the right-leaf case unlinked, deletion from an ordered tree removes exactly the value, keeps the order, reports the removed node exactly when the value was present and changes nothing when it was absent |
| BinarySearchTree.DeletedAsWritten | tree/binary_tree/binary_search_tree.py:73-128 | deletion as written never adds a value and never loses one other than the deleted value, and reports only a node that held it |
| BinarySearchTree.DeleteAsWrittenKeys | tree/binary_tree/binary_search_tree.py:73-128 | the same bounds for the walk below a parent on any side |
| BinarySearchTree.RightLeafDeleteKeepsValue | tree/binary_tree/binary_search_tree.py:103-116 | deleting the right leaf 2 of the tree 1 -> 2 reports it removed but leaves it linked, so 2 is still found |
| BinarySearchTree.Deleted | tree/binary_tree/binary_search_tree.py:73-128 | the corrected deletion: on an ordered tree the result is ordered, holds every value but the deleted one, reports the removed node exactly when the value was present and is unchanged when it was absent |
| BinarySearchTree.DeleteKeys | tree/binary_tree/binary_search_tree.py:73-128 | the corrected walk from the root removes exactly the value and keeps the order |
| BinarySearchTree.BinaryTree.constructor | tree/binary_tree/binary_search_tree.py:8-9 | a new tree is empty |
| BinarySearchTree.BinaryTree.Insert | tree/binary_tree/binary_search_tree.py:11-35 | the tree gains the value and stays ordered |
| BinarySearchTree.BinaryTree.Search | tree/binary_tree/binary_search_tree.py:37-51 | a node is found exactly when the value is in the tree, and it holds the value |
| BinarySearchTree.BinaryTree.Delete | tree/binary_tree/binary_search_tree.py:53-128 | corrected deletion (a right-child leaf is unlinked too): the tree loses exactly the value, stays ordered, and a node is returned exactly when the value was present |
| AvlTree.Join | tree/avl_binary_tree/avg_binary_tree.py:37 | a node's height is one more than the higher of its children's |
| AvlTree.AvlHeights | tree/avl_binary_tree/avg_binary_tree.py:37 | an AVL tree stores only positive heights |
| AvlTree.RightRotate | tree/avl_binary_tree/avg_binary_tree.py:43-47 | a right rotation keeps the in-order sequence and lifts the left child over the node |
| AvlTree.LeftRotate | tree/avl_binary_tree/avg_binary_tree.py:46-55 | a left rotation keeps the in-order sequence and lifts the right child over the node |
| AvlTree.Rebalance | tree/avl_binary_tree/avg_binary_tree.py:39-57 | the four rotation cases keep the in-order sequence |
| AvlTree.Put | tree/avl_binary_tree/avg_binary_tree.py:19-57 | insertion adds exactly the value, keeps the order and keeps every stored height positive |
| AvlTree.PutKeys | tree/avl_binary_tree/avg_binary_tree.py:29-34 | inserting into the side chosen by comparison adds exactly the value and keeps the order |
| AvlTree.JoinPositive | tree/avl_binary_tree/avg_binary_tree.py:37 | recomputing a height over positive-height children keeps heights positive |
| AvlTree.RebalancePositive | tree/avl_binary_tree/avg_binary_tree.py:39-57 | rebalancing keeps heights positive, the values and the order |
| AvlTree.JoinAvl | tree/avl_binary_tree/avg_binary_tree.py:37 | a node over AVL subtrees whose heights differ by at most one is AVL |
| AvlTree.AvlRotatable | tree/avl_binary_tree/avg_binary_tree.py:39-55 | every rotation chosen at a node over AVL subtrees finds the child it turns about |
| AvlTree.LeftHeavyFixed | tree/avl_binary_tree/avg_binary_tree.py:42-47 | a node left-heavy by two over AVL subtrees is AVL after the chosen rotation, with the left subtree's height or one more |
| AvlTree.RightHeavyFixed | tree/avl_binary_tree/avg_binary_tree.py:50-55 | the mirror case: right-heavy by two becomes AVL, with the right subtree's height or one more |
| AvlTree.LeftLeftFixed | tree/avl_binary_tree/avg_binary_tree.py:42-43 | when the left child does not lean right, one right rotation makes the node AVL, with the left subtree's height or one more |
| AvlTree.LeftRightFixed | tree/avl_binary_tree/avg_binary_tree.py:45-47 | when the left child leans right, rotating it left and then the node right makes the node AVL, as high as its left subtree |
| AvlTree.RightRightFixed | tree/avl_binary_tree/avg_binary_tree.py:50-51 | when the right child does not lean left, one left rotation makes the node AVL, with the right subtree's height or one more |
| AvlTree.RightLeftFixed | tree/avl_binary_tree/avg_binary_tree.py:53-55 | when the right child leans left, rotating it right and then the node left makes the node AVL, as high as its right subtree |
| AvlTree.BalancedUntouched | tree/avl_binary_tree/avg_binary_tree.py:57 | a node whose subtrees differ in height by at most one is not rotated |
| AvlTree.LeftGrown | tree/avl_binary_tree/avg_binary_tree.py:29-57 | after the left subtree grows by at most one, rebalancing gives an AVL tree as high as before or one higher |
| AvlTree.RightGrown | tree/avl_binary_tree/avg_binary_tree.py:31-57 | the mirror case for the right subtree |
| AvlTree.PutAvl | tree/avl_binary_tree/avg_binary_tree.py:19-57 | insertion keeps an AVL tree AVL, and its height grows by at most one |
| AvlTree.SplicedInOrder | tree/avl_binary_tree/avg_binary_tree.py:96-132 | the subtree that replaces the deleted node lists exactly its two subtrees' values in order, and keeps heights positive |
| AvlTree.PredecessorSpliced | tree/avl_binary_tree/avg_binary_tree.py:98-106 | the predecessor lifted out of the left subtree, over the rest of the left subtree and the right subtree, lists the same values in order |
| AvlTree.PositiveRemoveLast | tree/red_black_tree/red_black_tree.py:200-212 | unlinking the predecessor keeps heights positive |
| AvlTree.DeleteRemoves | tree/avl_binary_tree/avg_binary_tree.py:76-142 | on an ordered tree, deletion removes exactly the value, keeps the order, reports the value exactly when it was present and changes nothing otherwise |
| AvlTree.AverageBinaryTree.constructor | tree/avl_binary_tree/avg_binary_tree.py:8-9 | a new tree is empty |
| AvlTree.AverageBinaryTree.Insert | tree/avl_binary_tree/avg_binary_tree.py:11-17 | the tree gains the value, stays ordered, and stays AVL if it was |
| AvlTree.AverageBinaryTree.Search | tree/avl_binary_tree/avg_binary_tree.py:60-74 | a node is found exactly when the value is in the tree, and it holds the value |
| AvlTree.AverageBinaryTree.Delete | tree/avl_binary_tree/avg_binary_tree.py:76-142 | the tree loses exactly the value, stays ordered, and the value is returned exactly when it was present |
| RedBlackTree.Blacken | tree/red_black_tree/red_black_tree.py:21 | painting the root black keeps the in-order sequence and makes the root black |
| RedBlackTree.FlipColor | tree/red_black_tree/red_black_tree.py:108-114 | the node turns red, its children black, the in-order sequence is kept |
| RedBlackTree.LeftRotate | tree/red_black_tree/red_black_tree.py:80-92 | the right child rises and turns black, the node sinks and turns red, and the in-order sequence is kept |
| RedBlackTree.RightRotate | tree/red_black_tree/red_black_tree.py:94-106 | the mirror image |
| RedBlackTree.FlipStep | tree/red_black_tree/red_black_tree.py:41-49 | the colour flip step keeps the in-order sequence |
| RedBlackTree.LeftStep | tree/red_black_tree/red_black_tree.py:51-58 | the left rotation step keeps the in-order sequence |
| RedBlackTree.RightStep | tree/red_black_tree/red_black_tree.py:60-67 | the right rotation step keeps the in-order sequence |
| RedBlackTree.Fix | tree/red_black_tree/red_black_tree.py:40-68 | the whole repair keeps the in-order sequence |
| RedBlackTree.FixKeys | tree/red_black_tree/red_black_tree.py:40-68 | repair keeps the values and the order |
| RedBlackTree.Put | tree/red_black_tree/red_black_tree.py:23-68 | insertion adds exactly the value and keeps the order |
| RedBlackTree.FixValid | tree/red_black_tree/red_black_tree.py:40-68 | repair leaves a red-black tree alone |
| RedBlackTree.FixLeft | tree/red_black_tree/red_black_tree.py:40-68 | at a black node whose left subtree may carry one red-red violation, repair gives a red-black tree of the node's black height |
| RedBlackTree.FixRight | tree/red_black_tree/red_black_tree.py:40-68 | the mirror case for the right subtree |
| RedBlackTree.FixRedNode | tree/red_black_tree/red_black_tree.py:40-68 | at a red node over red-black subtrees, at most one of them red, repair does nothing and leaves the violation for the parent |
| RedBlackTree.PutRB | tree/red_black_tree/red_black_tree.py:23-68 | insertion keeps the black height; below a black root the result is red-black, below a red root it carries at most the one violation the parent repairs |
| RedBlackTree.InsertRedBlack | tree/red_black_tree/red_black_tree.py:13-21 | inserting and painting the root black keeps a red-black tree red-black |
| RedBlackTree.RemovedHere | tree/red_black_tree/red_black_tree.py:157-166 | removing the node holding the value leaves the in-order sequences of its two subtrees |
| RedBlackTree.DeleteRemoves | tree/red_black_tree/red_black_tree.py:132-197 | on an ordered tree, deletion removes exactly the value and keeps the order |
| RedBlackTree.DeleteLeftRemoves | tree/red_black_tree/red_black_tree.py:153-154 | deleting a value smaller than the node's removes exactly it from the left subtree, and the repaired node stays ordered |
| RedBlackTree.DeleteRightRemoves | tree/red_black_tree/red_black_tree.py:155-156 | deleting a value larger than the node's removes exactly it from the right subtree, and the repaired node stays ordered |
| RedBlackTree.AverageBinaryTree.constructor | tree/red_black_tree/red_black_tree.py:10-11 | a new tree is empty and red-black |
| RedBlackTree.AverageBinaryTree.Insert | tree/red_black_tree/red_black_tree.py:13-21 | the tree gains the value, stays ordered, and stays red-black if it was |
| RedBlackTree.AverageBinaryTree.Search | tree/red_black_tree/red_black_tree.py:116-130 | a node is found exactly when the value is in the tree, and it holds the value |
| RedBlackTree.AverageBinaryTree.Delete | tree/red_black_tree/red_black_tree.py:132-142 | the tree loses exactly the value and stays ordered |
| PrefixTree.AlphabetChars | tree/trie_tree/trie_tree.py:11-13 | a character is a key of `char_to_index` exactly when it is one of the 27 child-slot characters |
| PrefixTree.Bumped | tree/trie_tree/trie_tree.py:29-39 | the walk keeps every existing node and leaves a node on each prefix of the word |
| PrefixTree.Added | tree/trie_tree/trie_tree.py:23-42 | insertion keeps every existing node |
| PrefixTree.BumpedAt | tree/trie_tree/trie_tree.py:29-39 | after the walk a path is a node exactly when it was one or is a prefix walked so far, and each walked node counts one more insertion (a new one starting at 1) |
| PrefixTree.AddedAt | tree/trie_tree/trie_tree.py:23-42 | one insertion adds exactly the missing non-empty prefixes of the word, adds one to the count of each, and marks the word's node as an end with one more occurrence, leaving every other counter alone |
| PrefixTree.Build | tree/trie_tree/trie_tree.py:9-42 | a tree built by insertions always has its root |
| PrefixTree.OccurrencesArePrefixed | tree/trie_tree/trie_tree.py:34-42 | the occurrences of a word are at most the insertions it is a prefix of |
| PrefixTree.BuildAt | tree/trie_tree/trie_tree.py:23-42 | after a sequence of insertions a node exists exactly for each prefix of an inserted word, its count is the number of insertions with that prefix (0 at the root), its word count is the number of insertions of exactly that word, and it is a word end exactly when that word was inserted |
| PrefixTree.ParentPrefixCount | tree/trie_tree/trie_tree.py:29-39 | a node never counts more insertions than its parent |
| PrefixTree.PrefixCountAlphabetic | tree/trie_tree/trie_tree.py:31 | a prefix of an inserted alphabet word is an alphabet word |
| PrefixTree.BuildWellFormed | tree/trie_tree/trie_tree.py:23-42 | inserting alphabet words gives a tree where every node but the root has its parent and every path is in the alphabet |
| PrefixTree.PrefixesPresent | tree/trie_tree/trie_tree.py:29-39 | every prefix of a node is a node |
| PrefixTree.ReinsertCreatesNothing | tree/trie_tree/trie_tree.py:32-35 | inserting a word already present creates no node |
| PrefixTree.WalkTo | tree/trie_tree/trie_tree.py:50-57 | a walk standing at a node stands at a node of the tree |
| PrefixTree.WalkToAt | tree/trie_tree/trie_tree.py:50-57 | in a well-formed tree the walk is at a node exactly when that prefix is a node, raises KeyError exactly when a node is followed by a character outside the alphabet, and falls off only just after the last existing prefix |
| PrefixTree.WalkSettles | tree/trie_tree/trie_tree.py:53-57 | once the walk has returned early or raised, it stays so |
| PrefixTree.SearchMeaning | tree/trie_tree/trie_tree.py:44-82 | on a tree built from alphabet words, search raises KeyError exactly for a bad character after an existing node, otherwise says whether the word was inserted; the corrected count raises exactly when search does and otherwise gives the number of insertions of the word |
| PrefixTree.AlphabeticNoKeyError | tree/trie_tree/trie_tree.py:31-54 | a word of the alphabet never raises KeyError |
| PrefixTree.CountLastMissingRaises | tree/trie_tree/trie_tree.py:70-82 | on a tree holding only "a", counting "z" as written raises AttributeError, and the corrected count gives 0 |
| PrefixTree.MaxLen | tree/trie_tree/trie_tree.py:104-116 | a bound on the depth of the nodes, so listing terminates |
| PrefixTree.ListFromHas | tree/trie_tree/trie_tree.py:104-116 | listing from a node gives exactly the word ends strictly below it |
| PrefixTree.ListUpToHas | tree/trie_tree/trie_tree.py:112-116 | listing the first k child slots gives exactly the word ends at or below those children |
| PrefixTree.ListSlotHas | tree/trie_tree/trie_tree.py:113-116 | one child slot contributes the child if a word ends there and the word ends below it |
| PrefixTree.ListSlotSound | tree/trie_tree/trie_tree.py:113-116 | every word one child slot lists ends at a node below the prefix, through that slot's character |
| PrefixTree.ListSlotComplete | tree/trie_tree/trie_tree.py:113-116 | every word ending below the prefix through a slot's character is listed by that slot |
| PrefixTree.ListKeyError | tree/trie_tree/trie_tree.py:84-102 | listing by prefix raises KeyError exactly when the walk meets a bad character after an existing node |
| PrefixTree.ListMeaning | tree/trie_tree/trie_tree.py:84-116 | corrected listing by prefix gives exactly the inserted words that start with the prefix |
| PrefixTree.ListFromDistinct | tree/trie_tree/trie_tree.py:104-116 | listing from a node names every word at most once |
| PrefixTree.ListUpToDistinct | tree/trie_tree/trie_tree.py:112-116 | the child slots visited so far list distinct words, since different slots carry different characters |
| PrefixTree.ListSlotDistinct | tree/trie_tree/trie_tree.py:113-116 | one child slot lists the child at most once and never again among the words below it |
| PrefixTree.ListInDistinct | tree/trie_tree/trie_tree.py:84-102 | the corrected listing by prefix names each word once, the prefix itself included |
| PrefixTree.ListLastMissingRaises | tree/trie_tree/trie_tree.py:89-102 | on a tree holding only "a", listing by "z" as written raises AttributeError, and the corrected listing gives [] |
| PrefixTree.LongestEnd | tree/trie_tree/trie_tree.py:127-137 | the end found is the furthest end of a word starting at the position, and none is found only when no word starts there |
| PrefixTree.FirstStart | tree/trie_tree/trie_tree.py:150-160 | the start found is the earliest start of a word ending at the position, and none is found only when no word ends there |
| PrefixTree.ForwardFound | tree/trie_tree/trie_tree.py:127-132 | forward matching takes the longest word at the position and continues after it |
| PrefixTree.ForwardNone | tree/trie_tree/trie_tree.py:133-137 | with no word at the position, forward matching skips one character |
| PrefixTree.BackwardFound | tree/trie_tree/trie_tree.py:150-155 | backward matching takes the longest word ending at the position and continues before it, stopping after a word that starts at 0 |
| PrefixTree.BackwardNone | tree/trie_tree/trie_tree.py:156-160 | with no word ending at the position, backward matching drops one character |
| PrefixTree.SliceAlphabetic | tree/trie_tree/trie_tree.py:128-151 | a piece of an alphabet text is an alphabet word |
| PrefixTree.ForwardSplitWords | tree/trie_tree/trie_tree.py:118-139 | every piece of a forward split is a non-empty dictionary word |
| PrefixTree.BackwardSplitWords | tree/trie_tree/trie_tree.py:141-162 | every piece of a backward split is a dictionary word |
| PrefixTree.WholeWordSplits | tree/trie_tree/trie_tree.py:118-162 | a text that is itself a word comes back whole from either split |
| PrefixTree.SplitsWithoutWords | tree/trie_tree/trie_tree.py:129-152 | with no word found, both splits return nothing: what the splits give as written, where `search` never reaches the trie |
| PrefixTree.WordSet | tree/trie_tree/trie_tree.py:172-173 | the set of inserted words |
| PrefixTree.TrieTree.constructor | tree/trie_tree/trie_tree.py:9-13 | a new tree is the root alone, with nothing inserted |
| PrefixTree.TrieTree.Insert | tree/trie_tree/trie_tree.py:15-42 | the tree becomes the one described by Added and records one more insertion of the word |
| PrefixTree.TrieTree.Descend | tree/trie_tree/trie_tree.py:50-57 | the loop ends where the walk described by WalkTo ends |
| PrefixTree.TrieTree.Search | tree/trie_tree/trie_tree.py:44-62 | KeyError exactly for a bad character after an existing node; otherwise whether the word was inserted |
| PrefixTree.TrieTree.CountWord | tree/trie_tree/trie_tree.py:64-82 | corrected count: KeyError as for search, otherwise the number of insertions of the word |
| PrefixTree.TrieTree.List | tree/trie_tree/trie_tree.py:104-116 | the result is the accumulator followed by the word ends below the node, depth first in alphabet order |
| PrefixTree.TrieTree.ListByPrefix | tree/trie_tree/trie_tree.py:84-102 | corrected listing: KeyError as for search, otherwise exactly the inserted words starting with the prefix, each listed once |
| PrefixTree.TrieTree.ForwardSplitContent | tree/trie_tree/trie_tree.py:118-139 | corrected split: searching the trie directly, the loop produces forward maximum matching over the inserted words |
| PrefixTree.TrieTree.BackwardSplitContent | tree/trie_tree/trie_tree.py:141-162 | corrected split: searching the trie directly, the loop produces backward maximum matching over the inserted words |
| BNodes.AddValMultiset | tree/b_tree/balance_tree.py:41-45 | `add_val` adds the one value and keeps every other value with its multiplicity |
| BNodes.AddValSorted | tree/b_tree/balance_tree.py:41-45 | adding a value absent from a strictly increasing list keeps it strictly increasing |
| BNodes.AddValBetween | tree/b_tree/balance_tree.py:41-45 | `add_val` places the value after every smaller value and before every larger one |
| BNodes.AddValsMultiset | tree/b_tree/balance_tree.py:77-78 | adding values one by one keeps the old values and adds every new one |
| BNodes.AddValsAt | tree/b_tree/balance_tree.py:205-206 | adding in order a sorted run that fits between two runs places it there as one block |
| BNodes.Slot | tree/b_tree/balance_tree.py:39-53 | the scan stops at the first value not below `v`: every earlier value is smaller and the value found, if any, is at least `v` |
| BNodes.Take | tree/b_tree/balance_tree.py:82-83 | a Python slice `lst[:n]` has length `min(n, len)` and never fails |
| BNodes.Drop | tree/b_tree/balance_tree.py:77-80 | a Python slice `lst[n:]` has the remaining length, or 0, and never fails |
| BNodes.SplitSorted | tree/b_tree/balance_tree.py:72-83 | on a sorted node the new right sibling receives exactly the values after the middle one, in order |
| BNodes.SplitRightValues | tree/b_tree/balance_tree.py:75-81 | the right sibling receives the values after the middle one, each once, whatever their order |
| BNodes.LeftLeaf | tree/b_tree/balance_tree.py:236-241 | the node reached by always taking the first child is a leaf |
| BNodes.GetAfterNode | tree/b_tree/balance_tree.py:236-241 | the loop that follows first children ends at the leftmost leaf of the subtree |
| BalanceTree.OrderedBounds | tree/b_tree/balance_tree.py:39-56 | every value of an ordered subtree lies strictly between the bounds its parent gives it |
| BalanceTree.OrderedShaped | tree/b_tree/balance_tree.py:80-94 | an ordered subtree has one child more than values in every internal node |
| BalanceTree.SplitKeys | tree/b_tree/balance_tree.py:72-83 | the two halves of a split and the middle value hold exactly the values of the node split |
| BalanceTree.SplitLeftOrdered | tree/b_tree/balance_tree.py:82-83 | the half left in place is ordered below the middle value |
| BalanceTree.SplitRightOrdered | tree/b_tree/balance_tree.py:75-81 | the new right sibling is ordered above the middle value |
| BalanceTree.SplitChildValues | tree/b_tree/balance_tree.py:86-88 | the middle value of child `k` lands at index `k` of the parent's values, which stay strictly increasing |
| BalanceTree.SplitChildKeys | tree/b_tree/balance_tree.py:64-88 | splitting a child keeps exactly the values of the parent's subtree |
| BalanceTree.SplitChildOrdered | tree/b_tree/balance_tree.py:64-88 | splitting a child of an ordered node keeps the node ordered |
| BalanceTree.SplitChildUniform | tree/b_tree/balance_tree.py:64-88 | splitting a child keeps every leaf at the same depth |
| BalanceTree.SplitUnder | tree/b_tree/balance_tree.py:72-83 | from order 3 up, a node that reached the order splits into two halves with fewer than `m` values each |
| BalanceTree.SplitFromNoop | tree/b_tree/balance_tree.py:59-61 | the split scan changes nothing when no child has reached the order |
| BalanceTree.SplitFromKeys | tree/b_tree/balance_tree.py:59-61 | the split scan, which also visits the siblings it creates, keeps the node's values |
| BalanceTree.SplitFromOrdered | tree/b_tree/balance_tree.py:59-61 | the split scan keeps an ordered node ordered |
| BalanceTree.SplitFromUniform | tree/b_tree/balance_tree.py:59-61 | the split scan keeps every leaf at the same depth |
| BalanceTree.SplitFromBounded | tree/b_tree/balance_tree.py:59-61 | when only one child reached the order, the scan leaves every child under it and adds at most one value to the node |
| BalanceTree.Descent | tree/b_tree/balance_tree.py:39-56 | insertion goes down to an existing child: the first value not below `v`, or the last child |
| BalanceTree.DescentBounds | tree/b_tree/balance_tree.py:47-56 | the child insertion descends to has bounds around `v` |
| BalanceTree.PutKeys | tree/b_tree/balance_tree.py:29-62 | insertion adds exactly the inserted value to the subtree |
| BalanceTree.PutOrdered | tree/b_tree/balance_tree.py:29-62 | inserting a value within the bounds keeps the subtree ordered |
| BalanceTree.PutUniform | tree/b_tree/balance_tree.py:29-62 | insertion keeps every leaf at the same depth |
| BalanceTree.PutBounded | tree/b_tree/balance_tree.py:29-62 | from order 3 up, insertion into a subtree whose nodes are all under the order leaves at most `m` values at its top and every node below under `m` |
| BalanceTree.SplitRoot | tree/b_tree/balance_tree.py:89-94 | a root split makes a new root with one value and two children |
| BalanceTree.SplitRootKeeps | tree/b_tree/balance_tree.py:89-94 | a root split keeps the values and the order and puts every leaf one level deeper |
| BalanceTree.SplitRootUnder | tree/b_tree/balance_tree.py:26-27 | from order 3 up, a root that reached the order splits into a tree whose nodes are all under the order |
| BalanceTree.PutAsWritten | tree/b_tree/balance_tree.py:36-56 | insertion as written raises IndexError exactly when the descent reaches a leaf without values, and otherwise agrees with the corrected insertion |
| BalanceTree.InsertAfterEmptying | tree/b_tree/balance_tree.py:39-56 | deleting the only value leaves an empty leaf at the root; inserting into it as written raises IndexError, while the corrected insertion stores the value |
| BalanceTree.FlattenSorted | tree/b_tree/balance_tree.py:120-130 | the in-order listing of an ordered tree is strictly increasing and lies within its bounds |
| BalanceTree.FlattenElems | tree/b_tree/balance_tree.py:120-130 | the in-order listing holds every value of the tree and no other |
| BalanceTree.MidOrder | tree/b_tree/balance_tree.py:120-130 | the recursive listing appends the tree's in-order listing to the list it is given |
| BalanceTree.IndexOf | tree/b_tree/balance_tree.py:154-157 | the leaf scan finds the first index holding `v`, or the length when none does |
| BalanceTree.BorrowRight | tree/b_tree/balance_tree.py:196-202 | borrowing from the right brother keeps the number of children and values of the parent |
| BalanceTree.MergeRight | tree/b_tree/balance_tree.py:203-212 | merging with the right brother removes one child and one value from the parent |
| BalanceTree.BorrowLeft | tree/b_tree/balance_tree.py:216-222 | borrowing from the left brother keeps the number of children and values of the parent |
| BalanceTree.MergeLeft | tree/b_tree/balance_tree.py:223-233 | merging with the left brother removes one child and one value from the parent |
| BalanceTree.BorrowRightKeys | tree/b_tree/balance_tree.py:196-202 | borrowing from the right brother keeps the parent's values |
| BalanceTree.BorrowRightOrdered | tree/b_tree/balance_tree.py:196-202 | borrowing from the right brother keeps the parent ordered |
| BalanceTree.BorrowLeftKeys | tree/b_tree/balance_tree.py:216-222 | borrowing from the left brother keeps the parent's values |
| BalanceTree.BorrowLeftOrdered | tree/b_tree/balance_tree.py:216-222 | borrowing from the left brother keeps the parent ordered |
| BalanceTree.MergeRightKeeps | tree/b_tree/balance_tree.py:203-212 | merging with the right brother keeps the values, the order and the leaf depth |
| BalanceTree.MergeLeftKeeps | tree/b_tree/balance_tree.py:223-233 | merging with the left brother keeps the values, the order and the leaf depth |
| BalanceTree.Fill | tree/b_tree/balance_tree.py:184-233 | a fill fails only for the lone child of a node without values (the source reads `childs[-1]` as its brother); otherwise the parent keeps one child more than values and loses at most one child |
| BalanceTree.FillKeeps | tree/b_tree/balance_tree.py:184-233 | one fill of an under-filled child keeps the values, the order and the leaf depth |
| BalanceTree.FillUnder | tree/b_tree/balance_tree.py:184-233 | from order 3 up, a fill keeps every node under the order |
| BalanceTree.FillFrom | tree/b_tree/balance_tree.py:178-180 | the fill scan leaves a leaf or a node with one child more than values |
| BalanceTree.FillFromKeeps | tree/b_tree/balance_tree.py:178-180 | the fill scan, which goes on over the list as each fill left it, keeps the values, the order and the leaf depth whenever it succeeds |
| BalanceTree.LeftLeafMin | tree/b_tree/balance_tree.py:159-167 | the first value of the leftmost leaf is the least value of an ordered subtree, which makes it the successor deletion moves up |
| BalanceTree.DescentOnly | tree/b_tree/balance_tree.py:168-174 | in an ordered node only the child deletion descends to can hold `v` |
| BalanceTree.DeleteKeeps | tree/b_tree/balance_tree.py:142-182 | deletion removes exactly `v` and keeps the order and the leaf depth whenever it succeeds |
| BalanceTree.DeleteUnder | tree/b_tree/balance_tree.py:142-182 | from order 3 up, deletion keeps every node under the order whenever it succeeds |
| BalanceTree.FillFromSucceeds | tree/b_tree/balance_tree.py:178-180 | the scan of fills fails only at a first child that is its node's only child |
| BalanceTree.StockedLeftLeaf | tree/b_tree/balance_tree.py:163-164 | the successor leaf of a subtree whose nodes all hold a value has a first value |
| BalanceTree.DeleteSucceeds | tree/b_tree/balance_tree.py:142-182 | deletion succeeds on a leaf and on every subtree whose nodes all hold a value |
| BalanceTree.DeleteHereSucceeds | tree/b_tree/balance_tree.py:159-166 | deleting a value an internal node holds succeeds when every node below holds a value |
| BalanceTree.DeleteBelowSucceeds | tree/b_tree/balance_tree.py:167-174 | deleting a value an internal node does not hold succeeds in the chosen child when every node below holds a value |
| BalanceTree.SlotIs | tree/b_tree/balance_tree.py:96-118 | the search scan stops at the slot of `v`, the first value not below it |
| BalanceTree.DescentFinds | tree/b_tree/balance_tree.py:96-118 | a value an internal node does not hold is in the tree exactly when it is in the child the search descends to |
| BalanceTree.BalanceTree.constructor | tree/b_tree/balance_tree.py:11-16 | a new tree of order `m` is empty and valid |
| BalanceTree.BalanceTree.Insert | tree/b_tree/balance_tree.py:18-27 | corrected insertion (an empty root leaf takes the value): the tree stays valid (ordered, leaves at one depth, from order 3 up every node under the order) and gains exactly `v` |
| BalanceTree.BalanceTree.Search | tree/b_tree/balance_tree.py:96-118 | search returns `v` exactly when the tree holds it, otherwise nothing |
| BalanceTree.BalanceTree.MidOrderList | tree/b_tree/balance_tree.py:120-130 | the listing is strictly increasing and holds exactly the tree's values |
| BalanceTree.BalanceTree.Delete | tree/b_tree/balance_tree.py:132-140 | deletion keeps the tree valid; it raises AttributeError exactly on an empty tree; it succeeds on a root leaf and on any tree whose nodes all hold a value; on success the tree loses exactly `v`, and on an error it is left as it was |
| BalancePlusTree.OrderedBounds | tree/b+_tree/balance_plus_tree.py:34-64 | every key of an ordered subtree lies above its lower bound and at most at its upper bound |
| BalancePlusTree.OrderedShaped | tree/b+_tree/balance_plus_tree.py:66-100 | an ordered subtree has one child more than separators in every internal node |
| BalancePlusTree.SplitLeftLeaf | tree/b+_tree/balance_plus_tree.py:84-100 | a leaf split keeps in place the keys up to and including the middle one, which is added back to it |
| BalancePlusTree.SplitKeys | tree/b+_tree/balance_plus_tree.py:74-100 | the two halves of a split hold every key of the node split: a leaf's middle key stays on the left |
| BalancePlusTree.SplitChildKeys | tree/b+_tree/balance_plus_tree.py:66-100 | splitting a child keeps the parent's keys and its shape |
| BalancePlusTree.SplitLeftOrdered | tree/b+_tree/balance_plus_tree.py:84-100 | the part a split leaves in place is ordered at most up to the middle value |
| BalancePlusTree.SplitRightOrdered | tree/b+_tree/balance_plus_tree.py:77-83 | the new right sibling is ordered above the middle value |
| BalancePlusTree.SplitChildOrdered | tree/b+_tree/balance_plus_tree.py:66-100 | splitting a child of an ordered node keeps the node ordered |
| BalancePlusTree.SplitChildUniform | tree/b+_tree/balance_plus_tree.py:66-100 | splitting a child keeps every leaf at the same depth |
| BalancePlusTree.SplitFromKeys | tree/b+_tree/balance_plus_tree.py:61-64 | the split scan, which also visits the siblings it creates, keeps the node's keys and shape |
| BalancePlusTree.SplitFromOrdered | tree/b+_tree/balance_plus_tree.py:61-64 | the split scan keeps an ordered node ordered |
| BalancePlusTree.SplitFromUniform | tree/b+_tree/balance_plus_tree.py:61-64 | the split scan keeps every leaf at the same depth |
| BalancePlusTree.DescentBounds | tree/b+_tree/balance_plus_tree.py:53-58 | the child insertion descends to, the first separator not below `v`, has bounds around `v` |
| BalancePlusTree.PutKeys | tree/b+_tree/balance_plus_tree.py:34-64 | insertion adds exactly the inserted key and keeps the subtree shaped |
| BalancePlusTree.PutOrdered | tree/b+_tree/balance_plus_tree.py:34-64 | inserting a key within the bounds keeps the subtree in the B+-tree order |
| BalancePlusTree.PutUniform | tree/b+_tree/balance_plus_tree.py:34-64 | insertion keeps every leaf at the same depth |
| BalancePlusTree.PutAsWritten | tree/b+_tree/balance_plus_tree.py:41-58 | insertion as written raises IndexError exactly when the descent reaches a leaf without keys, and otherwise agrees with the corrected insertion |
| BalancePlusTree.SplitRoot | tree/b+_tree/balance_plus_tree.py:93-100 | a root split makes a new root with one separator and two children |
| BalancePlusTree.SplitRootKeys | tree/b+_tree/balance_plus_tree.py:27-28 | a root split keeps the keys and the shape |
| BalancePlusTree.SplitRootKeeps | tree/b+_tree/balance_plus_tree.py:93-100 | a root split keeps the order and puts every leaf one level deeper |
| BalancePlusTree.BorrowRight | tree/b+_tree/balance_plus_tree.py:196-207 | borrowing from the right brother keeps the number of children and separators of the parent |
| BalancePlusTree.MergeRight | tree/b+_tree/balance_plus_tree.py:209-232 | merging with the right brother removes one child and one separator from the parent |
| BalancePlusTree.LeftUp | tree/b+_tree/balance_plus_tree.py:236-247 | the corrected separator over the last child after a left borrow is a key of the left brother: the one before the key that moves (leaf) or the brother's last separator (internal) |
| BalancePlusTree.LeftUpAsWritten | tree/b+_tree/balance_plus_tree.py:239-244 | the separator as written for a leaf is the moved key itself unless the old separator equals it, in which case it is the corrected one |
| BalancePlusTree.BorrowLeft | tree/b+_tree/balance_plus_tree.py:236-251 | borrowing from the left brother keeps the number of children and separators of the parent |
| BalancePlusTree.MergeLeft | tree/b+_tree/balance_plus_tree.py:252-271 | merging with the left brother removes one child and one separator from the parent |
| BalancePlusTree.BorrowRightLeaf | tree/b+_tree/balance_plus_tree.py:198-200 | a leaf taking its right brother's first key keeps the parent's keys, order and leaf depth |
| BalancePlusTree.BorrowRightInner | tree/b+_tree/balance_plus_tree.py:201-207 | an internal node borrowing through the parent's separator keeps the parent's keys, order and leaf depth |
| BalancePlusTree.MergeRightLeaf | tree/b+_tree/balance_plus_tree.py:212-223 | a leaf merged into its right brother keeps the parent's keys, order and leaf depth |
| BalancePlusTree.MergeRightInner | tree/b+_tree/balance_plus_tree.py:224-232 | an internal node merged into its right brother with the separator keeps the parent's keys, order and leaf depth |
| BalancePlusTree.BorrowLeftLeaf | tree/b+_tree/balance_plus_tree.py:237-244 | a leaf taking its left brother's last key under the corrected separator keeps the parent's keys, order and leaf depth |
| BalancePlusTree.BorrowLeftInner | tree/b+_tree/balance_plus_tree.py:245-251 | an internal node borrowing from its left brother keeps the parent's keys, order and leaf depth |
| BalancePlusTree.MergeLeftLeaf | tree/b+_tree/balance_plus_tree.py:254-262 | a leaf merged into its left brother keeps the parent's keys, order and leaf depth |
| BalancePlusTree.MergeLeftInner | tree/b+_tree/balance_plus_tree.py:263-271 | an internal node merged into its left brother with the separator keeps the parent's keys, order and leaf depth |
| BalancePlusTree.Fill | tree/b+_tree/balance_plus_tree.py:184-271 | the corrected fill fails only for the lone child of a node without separators, and otherwise leaves one child more than separators |
| BalancePlusTree.FillAsWritten | tree/b+_tree/balance_plus_tree.py:184-271 | the fill as written differs from the corrected one only when a leaf borrows from its left brother, where it puts the separator as written |
| BalancePlusTree.FillKeeps | tree/b+_tree/balance_plus_tree.py:184-271 | one corrected fill of an under-filled child keeps the keys, the order and the leaf depth |
| BalancePlusTree.FillFrom | tree/b+_tree/balance_plus_tree.py:178-180 | the fill scan keeps a leaf a leaf and leaves an internal node with one child more than separators |
| BalancePlusTree.FillFromKeeps | tree/b+_tree/balance_plus_tree.py:178-180 | the fill scan keeps the keys, the order and the leaf depth whenever it succeeds |
| BalancePlusTree.DeleteNode | tree/b+_tree/balance_plus_tree.py:151-182 | deletion keeps a leaf a leaf and an internal node internal |
| BalancePlusTree.DescentOnly | tree/b+_tree/balance_plus_tree.py:167-174 | only the child deletion and search descend to can hold `v` |
| BalancePlusTree.DeleteLeaf | tree/b+_tree/balance_plus_tree.py:163-166 | a leaf that drops `v` keeps every other key and its order |
| BalancePlusTree.FillFromSucceeds | tree/b+_tree/balance_plus_tree.py:178-180 | the scan of fills fails only at a first child that is its node's only child |
| BalancePlusTree.DeleteSucceeds | tree/b+_tree/balance_plus_tree.py:151-182 | deletion succeeds on every subtree whose internal nodes all hold a separator |
| BalancePlusTree.DeleteKeeps | tree/b+_tree/balance_plus_tree.py:151-182 | corrected deletion removes `v` and nothing else, and keeps the B+-tree order and the leaf depth, whenever it succeeds |
| BalancePlusTree.Lookup | tree/b+_tree/balance_plus_tree.py:115-131 | a key the search returns is the key asked for and lies in the subtree |
| BalancePlusTree.LookupFinds | tree/b+_tree/balance_plus_tree.py:109-131 | in an ordered tree the search finds `v` exactly when the tree holds it |
| BalancePlusTree.DescentFinds | tree/b+_tree/balance_plus_tree.py:117-128 | a key lies in an ordered internal node exactly when it lies in the child the search descends to |
| BalancePlusTree.Leaves | tree/b+_tree/balance_plus_tree.py:101-107 | the chain of leaves is never empty and holds only leaves |
| BalancePlusTree.LeafHeadFirst | tree/b+_tree/balance_plus_tree.py:30-32 | the start of the chain is the leftmost leaf of the tree |
| BalancePlusTree.MidOrder | tree/b+_tree/balance_plus_tree.py:133-139 | walking the chain lists the keys of every leaf, one leaf after the other |
| BalancePlusTree.ListSorted | tree/b+_tree/balance_plus_tree.py:133-139 | the chain below an ordered subtree lists exactly its keys, strictly increasing and within its bounds |
| BalancePlusTree.InsertAfterEmptying | tree/b+_tree/balance_plus_tree.py:41-58 | deleting the only key leaves an empty leaf at the root; inserting into it as written raises IndexError, while the corrected insertion stores the key |
| BalancePlusTree.TreeOneTwoFour | tree/b+_tree/balance_plus_tree.py:19-32 | the tree of keys 1, 2 and 4 under separator 3 is in the B+-tree order |
| BalancePlusTree.DeleteFour | tree/b+_tree/balance_plus_tree.py:161-170 | deleting 4 from it descends to the right leaf and empties it |
| BalancePlusTree.LeftBorrowAsWritten | tree/b+_tree/balance_plus_tree.py:239-244 | the left borrow as written makes 2 its own separator, so the tree holds 2 where the search cannot find it |
| BalancePlusTree.LeftBorrowCorrected | tree/b+_tree/balance_plus_tree.py:233-251 | with the corrected separator 1 the same borrow keeps 2 findable |
| BalancePlusTree.BalancePlusTree.constructor | tree/b+_tree/balance_plus_tree.py:11-17 | a new tree of order `m` is empty and valid |
| BalancePlusTree.BalancePlusTree.Insert | tree/b+_tree/balance_plus_tree.py:19-32 | corrected insertion (an empty root leaf takes the key): the tree stays valid (B+-tree order, leaves at one depth) and gains exactly `v` |
| BalancePlusTree.BalancePlusTree.Search | tree/b+_tree/balance_plus_tree.py:109-131 | search returns `v` exactly when the tree holds it, otherwise nothing |
| BalancePlusTree.BalancePlusTree.MidOrderList | tree/b+_tree/balance_plus_tree.py:133-139 | the listing along the leaf chain is strictly increasing and holds exactly the tree's keys |
| BalancePlusTree.BalancePlusTree.Delete | tree/b+_tree/balance_plus_tree.py:141-149 | corrected deletion (the left-borrow separator of `LeftUp`): the tree stays valid; it raises AttributeError exactly on an empty tree; it succeeds whenever every internal node holds a separator, a lone leaf included; on success the tree loses exactly `v`, and on an error it is left as it was |

## Left out

- Timers, the clock and randomness in `cap/raft/node_application.py` are not modelled: `heart_beat`, `elect_cycle`, `reset_election_period`, `start` and the `__main__` block. Becoming leader sends the one heartbeat record synchronously and starts no timer.
- `update_last_commit_index` (cap/raft/node_application.py:328-344) is not modelled. Its `count_dict[v] += 1` on an empty dict raises KeyError, so it never completes when `match_index` is non-empty. `deal_append_response` calls it after a successful non-heartbeat reply; the model leaves that call out and puts no quorum-commit rule in its place.
- Cluster-wide Raft safety is not modelled: election safety, log matching across nodes, crash recovery. There is no network, one vote per term is not enforced and no self-vote is counted, so none of these follows from the code.
- RaftNode.CommitAfterAppend states the commit rule as written. The commit index can go down when the previous index is below it; `CommitBoundedAfterAppend` bounds it by the follower's last index, but no monotonicity is claimed.
- `LogManager.store` / `restore` and the file path and `mkdir` of its constructor (JSON and file I/O) are not modelled. The log starts empty.
- `entry_log.py` serves only as record shapes (`RaftTypes.Rpc`); `json.loads` and the string forms are not modelled.
- RaftTypes.Log: a heartbeat record, built by `append_request` called without entries (cap/raft/node_application.py:77-91), carries `entries = None` in the source; the model gives it the empty sequence. The two differ only where entries are iterated: `apply_entries` (cap/raft/node_application.py:372-379) would raise TypeError on `None`, and it is reached only through `update_last_commit_index`, which is not modelled.
- `client.py`, `node_1.py` and `node_3.py` are not part of this model: UDP sockets and process bootstrap.
- RaftNode.Node.constructor: the node does not build its own `CommunicationManager` (cap/raft/node_application.py:32). Its sends are recorded in `outbox` instead, and its `communicationManager` field starts null until `CommunicationManager.AppendNode` sets the back link.
- RaftNode.Node.DealAppendRequest: requires a request that carries a term. The retry request built by `deal_append_response` carries none; comparing it with `current_term` raises TypeError in Python 3, and that path is not modelled.
- RaftNode.Node.DealAppendResponse: requires the peer to be a key of `next_index` and `match_index` whenever they are read. The source raises KeyError otherwise, and that path is not modelled.
- RaftCommunication.CommunicationManager.SendTo: requires a registered id. The KeyError an unregistered id raises for types 1 to 4 is not modelled.
- RaftCommunication: a delivery names the node and the handler it reaches. The handler's effect is the corresponding `RaftNode.Node` method, and nested calls are not followed.
- The public `insert` / `search` / `delete` of `tree/base_tree.py` call the name-mangled `_Tree__insert` and so on, which never reach a subclass. The subclasses' underscore methods are modelled directly. The same mangling is why the trie's split methods never find a word, which is listed under Findings.
- Several helpers and attributes are used by the source but defined nowhere: `BNode`, `TrieNode`, the `left`, `right`, `height` and `is_red` of `IntNode`, `add_val`, `add_child`, `is_leaf`, `height`, `balance_factor`, `find_right_last_node`, and the AVL rotations. The model gives them the evident definitions:
  - `add_val` is a sorted insertion before the first larger value;
  - `add_child` puts the child where the tree order needs it: a split puts the new right sibling just after the child it came from; a borrow from the right brother adds its first child at the back of the child's list, a borrow from the left brother adds its last child at the front; a merge joins the two child lists in left-to-right order;
  - `is_leaf` means no children;
  - a node is truthy when it exists;
  - `height` is a stored field and `balance_factor` is left height minus right height;
  - AVL rotations are the standard ones, and the AVL file's `remove_prev_node` is the red-black one.
  - `IntNode` (tree/base_tree.py:24-34) sets only `value`, `prev` and `next`; it has no `left`, `right`, `height` or `is_red`, so as written the first read of a child of a new node (binary_search_tree.py:25, avg_binary_tree.py:30, red_black_tree.py:34) raises AttributeError once a second distinct value is inserted. The model gives every new node the evident attributes: no children (`Nil` on both sides), height 1 in the AVL tree, and the colour red in the red-black tree.
- `find_right_last_node` is the rightmost node of the subtree it is given. At the AVL and red-black call sites, which pass the node being deleted, the model uses the in-order predecessor that their comments and `remove_prev_node` describe.
- Trees are values: an operation returns the new tree instead of relinking nodes in place. Aliasing between nodes, the parent links the loops keep (`prev`, `current`) and the identity of the node objects returned are not modelled. A removed node is reported by its value or subtree.
- The B+-tree leaf chain (`left` / `right` links and `_leaf_head`) is derived from the tree (`BalancePlusTree.Leaves`), not stored. The relinking code in `_split` and `_fill_node` is therefore not modelled step by step. What is proved instead: the chain starts at the leftmost leaf and lists every key in increasing order, which those links are meant to keep.
- AvlTree.AverageBinaryTree.Delete: states order and content only, not balance. The source recomputes no height and does no rotation on deletion, so heights are carried over and balance is not kept.
- RedBlackTree.AverageBinaryTree.Delete: states order and content only. The source does not restore the red-black properties after a deletion.
- BalanceTree.BalanceTree.Insert: the bound "every node holds fewer than `m` values" is proved only from order 3 up. Orders 1 and 2 are accepted, but the source's root-split test (`> 2` values) lets those roots grow.
- BalanceTree.BalanceTree.Delete: the lower occupancy bound (`ceil(m/2) - 1` values per node) is not claimed. A fill repairs only the child it is called for, and a merge can leave the parent under the bound.
- BalancePlusTree.BalancePlusTree.Insert: no occupancy bound is claimed, neither lower nor upper.
- BalanceTree.BalanceTree.constructor and BalancePlusTree.BalancePlusTree.constructor: order 0 is excluded; both require `m >= 1`. At `m = 0` every node would split on every insertion.
- BalanceTree.Fill and BalancePlusTree.Fill: the lone child of a node without values is its own left brother in the source (`childs[k-1]` with `k == 0`, tree/b_tree/balance_tree.py:213-233). As written, the merge loop then adds the child's values (and children) to the very list it is iterating over, so it never terminates when the child has values; IndexError on the parent's missing value is raised only when the child has neither values nor children. The model replaces both outcomes, the endless loop included, by a failure, and the class methods then raise IndexError and leave the tree as it was.
- BinarySearchTree.BinaryTree.Delete: runs the corrected deletion. As written, deleting a leaf that is a right child reports it removed but leaves it linked (tree 1 with right child 2, delete 2: 2 is still found); the model unlinks it.
- BalanceTree.BalanceTree.Insert: runs the corrected insertion. As written, inserting into a root leaf left without values raises IndexError (insert 1, delete 1, insert 2); the model stores the value.
- BalancePlusTree.BalancePlusTree.Insert: runs the corrected insertion. As written, inserting into a root leaf left without keys raises IndexError (insert 5, delete 5, insert 7); the model stores the key.
- BalancePlusTree.BalancePlusTree.Delete: runs the corrected fill. As written, a leaf borrowing from its left brother takes the borrowed key itself as separator, which can make that key unfindable (order 3, keys 1, 2, 4 under separator 3, delete 4: 2 is no longer found); the model uses the key before it.
- BalanceTree.BalanceTree.Delete and BalancePlusTree.BalancePlusTree.Delete: success is promised only on the trees their ensures name (a root leaf, every node holding a value, every internal node holding a separator). The model does not prove that the trees the class methods build always meet that condition.
- On every raised error the class methods leave the tree unchanged. The source may have mutated part of it before raising.
- PrefixTree.TrieTree.Insert: requires a word over the 27-character alphabet. The source raises KeyError part-way through updating the nodes, and that partial update is not modelled.
- PrefixTree.TrieTree.ForwardSplitContent and PrefixTree.TrieTree.BackwardSplitContent: require text over the alphabet, so that the corrected search never raises.
- PrefixTree.TrieTree.ForwardSplitContent: runs the corrected split, which looks pieces up with the trie's own search. As written, the public `search` reaches the base class's name-mangled `__search`, which returns None, so the split returns [] for every text (insert "ab", split "ab": []); the model returns ["ab"].
- PrefixTree.TrieTree.BackwardSplitContent: runs the corrected split in the same way. As written it also returns [] for every text (insert "ab", split "ab": []); the model returns ["ab"].
- PrefixTree.TrieTree.CountWord: runs the corrected count. As written, a word whose walk falls off the tree raises AttributeError on `None` (tree holding only "a", count "z"); the model returns 0.
- PrefixTree.TrieTree.ListByPrefix: runs the corrected listing. As written, a prefix whose walk falls off the tree raises AttributeError on `None` (tree holding only "a", list "z"); the model returns [].
- NlpTrie.TrieDict.ParseLongest: runs the corrected backward parsing (`BackwardFixed`). As written, `parse_longest` returns `backward_parse_longest`, whose words are spelled backwards (dictionary {"ab"}, text "ab": "ba" at 0..1); the model reports "ab". The as-written parse stays available as NlpTrie.TrieDict.BackwardParseLongest.
- `double_array_trie.py`: building the arrays (through pyhanlp and Java) and `char_hash` are not modelled. The arrays are inputs and the hash is the character's code point.
- `ac_double_array_trie.py` is a wrapper over a Java segmenter and is not part of this model.
- `tool.py`: `load_dictionary` (Java), `evaluate_speed` and `trie_evaluate_speed` (timing) are not modelled; only `count_single_char` is.
- NlpTrie.FullFromMissesLaterStart: `parse_text` misses a word whose start lies inside a path that reached the end of the text. The model keeps this behaviour and states it, with no corrected version.
- DoubleArrayTrie.LongestSearcher.Next: the loop runs on local copies of `_i`, `begin`, `length`, `index` and `value` (RunScan), written back to the fields when the call returns normally. When the source raises IndexError part-way, the fields it has already changed are not modelled.
- DoubleArrayTrie.NextAtEndReportsNothing: at the end of the text, `LongestSearcher.next` does not rewind to the end of the pending hit. The model keeps this as written.
- Dictionaries are finite maps. Python's dict iteration order matters only for `Trie.update` and `CommunicationManager.send_to_all`. There the model keeps the order explicitly: the pairs of `update` are a sequence, and the manager records the ids in registration order.

## Findings

| source | as written | input that shows it | evidently intended | confidence | as-written member | corrected member |
|---|---|---|---|---|---|---|
| tree/binary_tree/binary_search_tree.py:103-116 | deleting a leaf clears the parent's link only when the leaf is a left child; there is no branch for a right child | tree 1 with right child 2, delete 2: the node is reported removed but is still linked, and 2 is still found | unlink the leaf from whichever side it hangs on | high (not executed) | BinarySearchTree.RightLeafDeleteKeepsValue | BinarySearchTree.DeleteFromRemoves |
| nlp/commom/trie.py:173-179 | `backward_parse_longest` reports the matched piece of the reversed text, i.e. the word spelled backwards | dictionary {"ab"}, text "ab": reports "ba" at 0..1 | report the word as it appears in the text, at its original positions | high (not executed) | NlpTrie.BackwardAsWrittenExample | NlpTrie.BackwardFixedSound |
| tree/trie_tree/trie_tree.py:70-82 | `count_word` dereferences the last node even when the walk fell off the tree | tree holding only "a", `count_word("z")`: AttributeError on `None` | return 0 for a word that is not in the tree | high (not executed) | PrefixTree.CountLastMissingRaises | PrefixTree.SearchMeaning |
| tree/trie_tree/trie_tree.py:89-102 | `list_by_prefix` dereferences the last node even when the walk fell off the tree | tree holding only "a", `list_by_prefix("z")`: AttributeError on `None` | return [] for a prefix that is not in the tree | high (not executed) | PrefixTree.ListLastMissingRaises | PrefixTree.ListMeaning |
| tree/trie_tree/trie_tree.py:129-152 | the split methods call the public `search`, which reaches the name-mangled `_Tree__search` of the base class and returns None | any text, e.g. the word "ab" after inserting "ab": both splits return [] | look the piece up with the trie's own `_search` | high (not executed) | PrefixTree.SplitsWithoutWords | PrefixTree.WholeWordSplits |
| nlp/commom/basic_seg_tool.py:81-84 | the tie-break counts single characters over `(word, start, end)` triples, whose length is always 3, so both counts are 0 and the backward result always wins | dictionary {"ab", "cd", "bcd"}, text "abcd": forward ["ab", "cd"] and backward ["a", "bcd"]; the backward one, with a single character, is returned | count single-character words, and keep the result with fewer of them | high (not executed) | BasicSeg.TieBreakKeepsMoreSingles | BasicSeg.ChooseByWordsPrefersFewerSingles |
| tree/b_tree/balance_tree.py:39-56 | `__put` on a leaf without values skips the value loop and reads `childs[-1]` of an empty list | insert 1, delete 1, insert 2 (the root is left as an empty leaf): IndexError | store the value in the empty leaf | high (not executed) | BalanceTree.InsertAfterEmptying | BalanceTree.PutKeys |
| tree/b+_tree/balance_plus_tree.py:41-58 | the same fall-through on a leaf without keys | insert 5, delete 5, insert 7: IndexError | store the key in the empty leaf | high (not executed) | BalancePlusTree.InsertAfterEmptying | BalancePlusTree.PutKeys |
| tree/b+_tree/balance_plus_tree.py:239-244 | a leaf borrowing from its left brother makes the borrowed key the new separator, but keys equal to a separator are searched for on its left | order 3, keys 1, 2, 4 under separator 3; delete 4: the tree becomes separator 2 over [1] and [2], and `_search(2)` returns None | use the key before the borrowed one as separator | high (not executed) | BalancePlusTree.LeftBorrowAsWritten | BalancePlusTree.LookupFinds |
