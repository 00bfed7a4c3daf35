# SuffixTree: a verified model of a fixed-depth compound-key container

The SuffixTree library stores values under compound string keys such as
`aaa-bbb-ccc-ddd`: one token per level, separated by a delimiter. A key
codec turns the key into one integer index per level. The container then
stores the value under those indices. This project models four layers:

- **Key codecs.**
  - The dynamic codec `SuffixTreeTraits`, with its per-level dictionaries
    `ContBuilderKeys`, and its older revision `ContBuilder`. Each level
    numbers its tokens in the order they arrive.
  - The static codec `StaticContBuilder`. Each level is a sorted vocabulary
    searched with `std::lower_bound` and `strncmp`.
  - The tokeniser shared by all three is module `KeyScan`. It holds two
    parse loops:
    - the loop as the sources write it, which never checks the token count;
    - the loop with exactly one token per level, which is what the tests
      expect.
- **The string arena `StringArena`.** A bump allocator that copies token
  characters into large blocks.
- **The dense container `StaticSuffixTree`.** One `values`/`optional`
  array pair, addressed by the mixed-radix number of the parsed key, with
  a counter of occupied slots.
- **The sparse four-level tree.** There are two node implementations:
  - the newer `RootNode`/`SuffixNode`/`LeafNode` of `SuffixTreeImpl.h`;
  - the older ones of `SuffixTree.h`, with the `SuffixTree` container and
    its iterator.

  Nodes live in an index arena (module `SuffixNodes`): a node is a slot of
  a sequence, and a pointer is a slot number. The tree's meaning is
  `Contents`, a map from four-index keys to values. Every operation is
  stated against it.

Classes keep the source's mutable state as fields. Loops keep their
invariants. Pure lookups and joins are functions. The properties proved
include:

- round trips between the parse and assemble operations;
- that the mixed-radix index is in range and injective;
- that the size counters equal the number of stored keys;
- that each insert, erase and clear changes exactly one entry of the
  contents, or the entries it is meant to;
- that the corrected tree iterator (IteratorNext and Increment) moves to
  the next stored key in lexicographic order, while next() as written can
  stop early at an empty leaf and operator++ as written does not move (see
  Findings).

## Model

| member | source | states |
|---|---|---|
| KeyScan.Split | src/SuffixTreeTraits.h:244-266 | the tokens between delimiters number one more than the delimiters |
| KeyScan.SplitJoin | src/SuffixTreeTraits.h:244-277 | splitting the join of delimiter-free tokens gives back the same tokens |
| KeyScan.JoinSplit | src/SuffixTreeTraits.h:244-277 | joining the tokens of a split gives back the key |
| KeyScan.SplitAppendToken | src/SuffixTreeTraits.h:244-266 | a delimiter and a delimiter-free token appended to a key add exactly that token to its split |
| KeyScan.ScanStep | src/SuffixTreeTraits.h:222-233 | reading a delimiter closes the pending token; any other character extends it |
| KeyScan.CompletedPrefix | src/SuffixTreeTraits.h:222-233 | the tokens closed after reading a prefix are a prefix of those closed after reading the whole key |
| KeyScan.LookupAppend | src/SuffixTreeTraits.h:218-242 | looking up a concatenation of token lists is looking up the first list, then the second from the level where the first stopped |
| KeyScan.LookupFailsOnPrefix | src/SuffixTreeTraits.h:225-229 | a token lookup that fails on a prefix of the tokens fails the same way on all of them |
| KeyScan.LookupScannedAt | src/SuffixTreeTraits.h:225-240 | a successful lookup records, at every level, the level dictionary's own index of that token |
| KeyScan.ScanFailsEarly | src/SuffixTreeTraits.h:225-229 | once a closed token is unknown, parseKey as written returns false whatever follows |
| KeyScan.ScanKey | src/SuffixTreeTraits.h:218-242 | the character loop of parseKey (no token count check) computes the outcome ScanAsWritten defines: the indices written to res, or the first unknown token |
| KeyScan.ScanChar | src/SuffixTreeTraits.h:222-233 | one pass of that loop keeps the loop state in step with the prefix read, or ends with the loop's final outcome |
| KeyScan.FinishScan | src/SuffixTreeTraits.h:234-241 | the trailing token is looked up only when non-empty; the result is the loop's outcome |
| KeyScan.ParseSound | src/SuffixTreeTraits.h:244-277 | a successful parse has exactly one token per level, and each index is its level's index of that token |
| KeyScan.ParseComplete | src/SuffixTreeTraits.h:244-277 | a key with one token per level, each known, parses to exactly those indices |
| KeyScan.ParseFailsEarly | src/SuffixTreeTraits.h:225-229 | a closed unknown token makes the arity-checked parse fail |
| KeyScan.TooManyTokens | src/SuffixTreeTraits.h:255-259 | as many closed tokens as levels before the end of the key means too many tokens: the parse fails |
| KeyScan.ParseKey | src/SuffixTreeTraits.h:218-242 | the parse loop with the token count check returns exactly Parse: one known token per level or failure |
| KeyScan.ParseChar | src/SuffixTreeTraits.h:222-233 | one pass of the checked loop either proves the parse fails or keeps the loop state in step |
| KeyScan.FinishParse | src/SuffixTreeTraits.h:234-241 | the end of the checked loop yields Parse |
| KeyScan.ScanAgreesWithParse | src/SuffixTreeTraits.h:218-242 | for a key with exactly one token per level and a non-empty last token, the loop as written and the checked parse agree: one succeeds iff the other does, with the same indices |
| KeyScan.ShortKeyScanned | src/SuffixTreeTraits.h:218-242 | "a-b-c" over four levels is accepted as written, with three indices, and rejected by the checked parse |
| KeyScan.TokenEnds | src/SuffixTreeTraits.h:249-266 | the first loop of parseNewKey fails iff the token count differs from the level count; otherwise the recorded delimiter positions cut out exactly the split tokens |
| KeyScan.FinishEnds | src/SuffixTreeTraits.h:262-266 | the end of that loop: the last token runs to the end of the key, and fewer tokens than levels fail |
| KeyScan.TracksStep | src/SuffixTreeTraits.h:252-261 | each character read keeps the recorded positions equal to the closed tokens |
| KeyScan.SlicesAt | src/SuffixTreeTraits.h:268-276 | the k-th slice runs from just after the previous delimiter to the k-th recorded position |
| StringArenaModel.AlignSizeBounds | src/StringArena.cpp:13-16 | alignSize(s, a) is a multiple of 2^a, strictly above s and at most s + 2^a |
| StringArenaModel.GetAlignBitAccepts | src/StringArena.cpp:18-33 | exactly 1, 4, 8, 16, 32, 64 and 128 are accepted; above one byte the shift is the alignment's logarithm, and 1 maps to shift 1 |
| StringArenaModel.BlockSize | src/StringArena.cpp:71-81 | a new block holds at least the size asked for and at least bufferSize_ times factor_ |
| StringArenaModel.Write | src/StringArena.cpp:60-65 | the copy writes the token at its offset and leaves every other byte of the block as it was |
| StringArenaModel.WriteKeepsBefore | src/StringArena.cpp:60-65 | a copy at or after the end of an earlier view leaves that view's characters intact |
| StringArenaModel.RawAllocateOverflows | src/StringArena.cpp:55-69 | as written, sizeLeft_ goes negative and the next copy is placed past the end of its block |
| StringArenaModel.StringArena.Init | src/StringArena.cpp:36-48 | the constructor takes one block of max(bufferSize, bufferSize * factor) bytes, with the cursor at its start and nothing issued |
| StringArenaModel.StringArena.AllocateBlock | src/StringArena.cpp:71-81 | a new block is appended and earlier blocks are kept; bufferSize_ grows only while below the limit; every view issued still reads its contents |
| StringArenaModel.StringArena.Allocate | src/StringArena.cpp:55-69 | the returned view reads exactly the given characters; every earlier view still reads its own; the cursor advances by the aligned size of the token and its NUL |
| StringArenaModel.StringArena.CopyIn | src/StringArena.cpp:60-67 | the copy into the current block: the view reads the token, and the cursor and sizeLeft_ move by the aligned size |
| StringArenaModel.StringArena.Clear | src/StringArena.cpp:83-89 | clear drops every block; the cursor is null and nothing is left |
| StringArenaModel.NewStringArena | src/StringArena.cpp:36-48 | an unsupported alignment, and then a limit above INT_MAX, are refused; otherwise the arena starts with its first block |
| ContBuilderKeysModel.AddAbsentKeepsDense | src/ContBuilderKeys.cpp:169-177 | recording an absent token under the level's previous size keeps the indices 0..size-1, each used once |
| ContBuilderKeysModel.IndexRangeSize | src/ContBuilderKeys.cpp:156-161 | the indices 0..n-1 are n in number and are exactly those below n |
| ContBuilderKeysModel.IndicesSize | src/ContBuilderKeys.cpp:169-177 | a dictionary whose tokens have distinct indices uses as many indices as it has tokens |
| ContBuilderKeysModel.DenseIndices | src/ContBuilderKeys.cpp:156-177 | a dense dictionary uses exactly the indices 0..size-1, so the index addKey gives next is the first unused one |
| ContBuilderKeysModel.SeedMapKeys | src/ContBuilderKeys.cpp:14-25 | the seeded dictionary knows exactly the seed tokens |
| ContBuilderKeysModel.SeedMapDistinct | src/ContBuilderKeys.cpp:14-25 | with distinct seeds, the i-th seed gets index i and the dictionary is dense |
| ContBuilderKeysModel.SeedMapRepeated | src/ContBuilderKeys.cpp:14-25 | a repeated seed is given the current size, so index 0 is owned by no token |
| ContBuilderKeysModel.NewKeyArena | src/ContBuilderKeys.cpp:30-37 | every dictionary set gets its own 32-byte aligned arena with nothing issued |
| ContBuilderKeysModel.ContBuilderKeys.constructor | src/ContBuilderKeys.cpp:30-37 | levelCount empty dictionaries |
| ContBuilderKeysModel.ContBuilderKeys.Seeded | src/ContBuilderKeys.cpp:39-127 | level l is the dictionary of its seed list |
| ContBuilderKeysModel.ContBuilderKeys.AddKey | src/ContBuilderKeys.cpp:169-177 | the token gets the level's previous size; only that level changes; an absent token grows the level by one and keeps it dense |
| ContBuilderKeysModel.ContBuilderKeys.SuffixCount | src/ContBuilderKeys.cpp:156-161 | on a dense level, the indices in use are exactly those below suffixCount(level) |
| ContBuilderKeysModel.ContBuilderKeys.Level | src/ContBuilderKeys.cpp:163-167 | the dictionary returned for a dense level is dense, with exactly the indices below suffixCount(level) |
| ContBuilderKeysModel.ContBuilderKeys.Copy | src/ContBuilderKeys.cpp:129-144 | the same dictionaries, in a fresh arena |
| ContBuilderKeysModel.ContBuilderKeys.Assign | src/ContBuilderKeys.cpp:146-154 | self-assignment keeps the arena; otherwise the dictionaries are copied into a fresh one |
| ContBuilderKeysModel.ToKey2Index | src/ContBuilderKeys.cpp:14-25 | the loop over the seeds builds exactly the seeded dictionary |
| ContBuilderKeysModel.CopyLevel | src/ContBuilderKeys.cpp:135-142 | the copy loop reproduces the level's dictionary |
| SuffixTreeTraitsModel.RegisteredStep | src/SuffixTreeTraits.h:268-276 | registering the next token keeps every earlier token registered under its index |
| SuffixTreeTraitsModel.RegisteredParses | src/SuffixTreeTraits.h:268-277 | once every token of a one-token-per-level key is registered, the key parses to the recorded indices |
| SuffixTreeTraitsModel.TokensOfSound | src/SuffixTreeTraits.h:279-298 | the reverse lookup finds a token for every index iff each level has one, and each found token owns its index |
| SuffixTreeTraitsModel.AssembleKeyAsWrittenNeverParses | src/SuffixTreeTraits.h:279-298 | the key assembled as written starts with the delimiter, so it never parses back |
| SuffixTreeTraitsModel.AssembleKeyRoundTrip | src/SuffixTreeTraits.h:279-298 | over dense dictionaries with delimiter-free tokens, the corrected assembly of in-range indices parses back to them |
| SuffixTreeTraitsModel.ParseThenAssemble | src/SuffixTreeTraits.h:244-298 | a key that parses over dense dictionaries is what the corrected assembly gives for its indices |
| SuffixTreeTraitsModel.SplitTokensFree | src/SuffixTreeTraits.h:244-266 | no split token contains the delimiter |
| SuffixTreeTraitsModel.SuffixTreeTraits.constructor | src/SuffixTreeTraits.h:112-116 | levels empty dictionaries and the given delimiter |
| SuffixTreeTraitsModel.SuffixTreeTraits.Seeded | src/SuffixTreeTraits.h:117-190 | level l numbers the tokens of its seed list |
| SuffixTreeTraitsModel.SuffixTreeTraits.Copy | src/SuffixTreeTraits.h:195-200 | the same delimiter and dictionaries, copied |
| SuffixTreeTraitsModel.SuffixTreeTraits.Assign | src/SuffixTreeTraits.h:202-207 | takes the other's delimiter and a copy of its dictionaries |
| SuffixTreeTraitsModel.SuffixTreeTraits.Levels | src/SuffixTreeTraits.h:213-216 | the fixed level count is the number of dictionaries |
| SuffixTreeTraitsModel.SuffixTreeTraits.SuffixCount | src/SuffixTreeTraits.h:300-304 | on a dense level, the indices in use are exactly those below suffixCount(level) |
| SuffixTreeTraitsModel.SuffixTreeTraits.GetKeyIndex | src/SuffixTreeTraits.h:307-321 | an index exactly for a known token at an existing level, and it is that token's index |
| SuffixTreeTraitsModel.SuffixTreeTraits.ParseKey | src/SuffixTreeTraits.h:218-242 | parseKey is the read-only loop as written over the dictionaries |
| SuffixTreeTraitsModel.SuffixTreeTraits.GetNewKeyIndex | src/SuffixTreeTraits.h:323-338 | a known token keeps its index and nothing changes; an unknown one gets the level's previous size, the level grows by exactly that one token, and no other level changes; density is kept |
| SuffixTreeTraitsModel.SuffixTreeTraits.ParseNewKey | src/SuffixTreeTraits.h:244-277 | fails and changes nothing iff the token count differs from the level count; otherwise each level gains exactly the key's token for it (at the level's previous size when new) and nothing else, and the result is what the read-only parse now gives |
| SuffixTreeTraitsModel.SuffixTreeTraits.RegisterTokens | src/SuffixTreeTraits.h:267-275 | the second loop registers the slice before each recorded delimiter position at its level: each level gains exactly that token (at its previous size when new), and every slice is registered under the index recorded in res |
| SuffixTreeTraitsModel.ParseNewKeyThenParseKey | src/SuffixTreeTraits.h:218-277 | after parseNewKey succeeds on a key with a non-empty last token, parseKey as written gives the same indices |
| ContBuilderModel.ContBuilder.constructor | src/ContBuilder.cpp:20-27 | total_Suffix empty dictionaries |
| ContBuilderModel.ContBuilder.Seeded | src/ContBuilder.cpp:29-42 | level l is the dictionary of its seed list |
| ContBuilderModel.ContBuilder.Levels | src/ContBuilder.cpp:47-50 | the level count is total_Suffix |
| ContBuilderModel.ContBuilder.SuffixCount | src/ContBuilder.cpp:52-56 | on a dense level, the indices in use are exactly those below suffixCount(level) |
| ContBuilderModel.ContBuilder.GetKeyIndex | src/ContBuilder.cpp:58-72 | an index exactly for a known token, and it is that token's index |
| ContBuilderModel.ContBuilder.GetNewKeyIndex | src/ContBuilder.cpp:74-92 | a known token keeps its index and nothing changes; an unknown one gets the level's previous size, the level grows by exactly that one token, and no other level changes |
| ContBuilderModel.ContBuilder.ParseKey | src/ContBuilder.cpp:94-118 | the read-only loop as written |
| ContBuilderModel.ContBuilder.ParseKeyExact | src/ContBuilder.cpp:94-118 | the read-only parse with one token per level |
| ContBuilderModel.ContBuilder.ParseNewKey | src/ContBuilder.cpp:120-148 | fails and changes nothing iff the key does not have four tokens; otherwise each level gains exactly the key's token for it (at the level's previous size when new) and nothing else, and the parse is returned |
| ContBuilderModel.ContBuilder.RegisterTokens | src/ContBuilder.cpp:139-146 | the second loop registers the slice before each recorded delimiter position at its level: each level gains exactly that token (at its previous size when new), and every slice is registered under the index recorded in res |
| ContBuilderModel.ContBuilder.AssembleKey | src/ContBuilder.cpp:150-168 | the stub returns the empty key, which never parses back |
| StaticContBuilderModel.StrLessTotal | src/StaticContBuilder.cpp:39-42 | the string order std::sort uses is total |
| StaticContBuilderModel.StrLessTransitive | src/StaticContBuilder.cpp:39-42 | and transitive |
| StaticContBuilderModel.StrLessNCmp | src/StaticContBuilder.cpp:64-69 | a string below a NUL-free token compares below it under strncmp on the token's length |
| StaticContBuilderModel.StrNCmpSelf | src/StaticContBuilder.cpp:70-71 | a string compares equal to itself under strncmp on its length |
| StaticContBuilderModel.SortTokens | src/StaticContBuilder.cpp:39-42 | sorting keeps the same tokens, with the same multiplicities |
| StaticContBuilderModel.SortTokensSorted | src/StaticContBuilder.cpp:39-42 | sorting leaves each vocabulary in order |
| StaticContBuilderModel.SortTokensStrict | src/StaticContBuilder.cpp:39-42 | sorting distinct tokens leaves them strictly increasing |
| StaticContBuilderModel.LowerBound | src/StaticContBuilder.cpp:64-69 | lower_bound returns the first entry not below the token on the token's length |
| StaticContBuilderModel.LowerBoundAtToken | src/StaticContBuilder.cpp:64-69 | in a strictly sorted vocabulary, lower_bound stops exactly at a token that is present |
| StaticContBuilderModel.GetKeyIndexExact | src/StaticContBuilder.cpp:54-75 | the corrected lookup succeeds iff the token is in the vocabulary, and returns its position |
| StaticContBuilderModel.FoundAtOwnPosition | src/StaticContBuilder.cpp:54-75 | in a strictly sorted vocabulary, the corrected lookup finds every NUL-free token at its own position |
| StaticContBuilderModel.GetKeyIndexAsWrittenOnPresent | src/StaticContBuilder.cpp:54-75 | on a present token, the lookup as written and the corrected one agree |
| StaticContBuilderModel.GetKeyIndexPrefixMatch | src/StaticContBuilder.cpp:70-73 | as written, "aa" is accepted against the vocabulary ["aaa"] |
| StaticContBuilderModel.AssembleIsJoin | src/StaticContBuilder.cpp:102-119 | with a non-empty first token, assembleKey is the plain join, with no leading delimiter |
| StaticContBuilderModel.StaticContBuilder.constructor | src/StaticContBuilder.cpp:19-43 | four vocabularies, each sorted and a permutation of its argument |
| StaticContBuilderModel.StaticContBuilder.SuffixCount | src/StaticContBuilder.cpp:48-52 | the vocabulary's size; over a strictly sorted vocabulary every NUL-free entry below it is found by the corrected lookup at its own position |
| StaticContBuilderModel.StaticContBuilder.KeyIndex | src/StaticContBuilder.cpp:54-75 | getKeyIndex with the corrected, exact lookup of Findings row 2: a found index is below suffixCount(level) and names the token; over a strictly sorted vocabulary and a NUL-free token it fails exactly when the token is absent |
| StaticContBuilderModel.StaticContBuilder.ParseKey | src/StaticContBuilder.cpp:77-101 | parseKey is the loop as written, with the prefix-matching lookup |
| StaticContBuilderModel.StaticContBuilder.ParseKeyExact | src/StaticContBuilder.cpp:77-101 | the parse with one token per level, each matched exactly |
| StaticContBuilderModel.StaticContBuilder.AssembleKey | src/StaticContBuilder.cpp:102-119 | with non-empty, delimiter-free tokens, splitting the assembled key gives back exactly the tokens the indices name, one per level |
| StaticContBuilderModel.AssembleThenParse | src/StaticContBuilder.cpp:77-119 | over clean vocabularies, the assembled key parses back to the same indices, both exactly and as written |
| StaticSuffixTreeModel.MixedRadixBound | src/StaticSuffixTree.h:242-250 | an index below each level's count gives a position below the product of the counts, the array size |
| StaticSuffixTreeModel.MixedRadixInjective | src/StaticSuffixTree.h:242-250 | distinct in-range keys get distinct positions |
| StaticSuffixTreeModel.ParsedInRange | src/StaticSuffixTree.h:159-168 | a parsed key names an index within every level's vocabulary |
| StaticSuffixTreeModel.CountTrueUpdate | src/StaticSuffixTree.h:168-171 | setting or clearing one flag changes the count of set flags by at most that flag |
| StaticSuffixTreeModel.StaticSuffixTree.Slot | src/StaticSuffixTree.h:163-167 | the slot of a parsed key lies within the arrays |
| StaticSuffixTreeModel.StaticSuffixTree.constructor | src/StaticSuffixTree.h:114-125 | one empty slot with the default value per combination of tokens; size 0 |
| StaticSuffixTreeModel.StaticSuffixTree.Copy | src/StaticSuffixTree.h:132-135 | fresh arrays with the same contents, so later changes to either tree do not reach the other |
| StaticSuffixTreeModel.StaticSuffixTree.CalcIndex | src/StaticSuffixTree.h:242-250 | the loop computes the mixed-radix number of the key, below the array size |
| StaticSuffixTreeModel.StaticSuffixTree.Begin | src/StaticSuffixTree.h:146-152 | the first occupied slot, or the end when none is |
| StaticSuffixTreeModel.StaticSuffixTree.Next | src/StaticSuffixTree.h:225-231 | the first occupied slot after index, or the end when none is |
| StaticSuffixTreeModel.StaticSuffixTree.Insert | src/StaticSuffixTree.h:159-173 | an unparsable key returns the end and changes nothing; otherwise the slot holds the value, is occupied, size grows iff it was empty, and no other slot changes |
| StaticSuffixTreeModel.StaticSuffixTree.Find | src/StaticSuffixTree.h:175-184 | the iterator at the key's slot iff the key parses and the slot is occupied; the end otherwise |
| StaticSuffixTreeModel.StaticSuffixTree.EraseKey | src/StaticSuffixTree.h:186-197 | an unparsable key or empty slot returns the end and changes nothing; otherwise the slot is cleared, size drops by one, and the next occupied slot is returned |
| StaticSuffixTreeModel.StaticSuffixTree.EraseAt | src/StaticSuffixTree.h:199-211 | the end or an empty slot erases nothing; otherwise as erase(key) for that slot |
| StaticSuffixTreeModel.StaticSuffixTree.Size | src/StaticSuffixTree.h:213 | size() is the number of occupied slots |
| StaticSuffixTreeModel.StaticSuffixTree.Clear | src/StaticSuffixTree.h:215-221 | every slot empty with the default value, and size 0 |
| StaticSuffixTreeModel.StaticSuffixTree.Get | src/StaticSuffixTree.h:234-240 | a value exactly for an occupied slot; the error otherwise |
| StaticSuffixTreeModel.StaticSuffixTree.Value | src/StaticSuffixTree.h:234-240 | the end has no value; otherwise get of its slot |
| StaticSuffixTreeModel.StaticSuffixTree.SetValue | src/StaticSuffixTree.h:42-46 | assignment through `*it`: the end and an empty slot throw; otherwise exactly that slot's value becomes v, flags and size unchanged, and reading through the iterator gives v |
| StaticSuffixTreeModel.StaticSuffixTree.IteratorNext | src/StaticSuffixTree.h:65-70 | the end stays the end; otherwise the first occupied slot after the iterator's |
| StaticSuffixTreeModel.StaticSuffixTree.IncrementAsWritten | src/StaticSuffixTree.h:72-76 | operator++ as written leaves the iterator where it was |
| StaticSuffixTreeModel.StaticSuffixTree.Increment | src/StaticSuffixTree.h:72-76 | operator++ as intended moves to the first occupied slot after the iterator's |
| StaticSuffixTreeModel.StaticSuffixTree.Assign | src/StaticSuffixTree.h:137-144 | takes copies of the other's arrays and its size |
| StaticSuffixTreeModel.EraseTwice | src/StaticSuffixTree.h:186-197 | a second erase of a key returns the end, and size drops at most once |
| StaticSuffixTreeModel.WriteAfterCopy | test/StaticSuffixTreeTest.cpp:244-253 | after copying, a write through an iterator of the original changes the original's value only: the copy still reads the old value |
| StaticSuffixTreeModel.IncrementStalls | src/StaticSuffixTree.h:72-76 | with a later occupied slot, operator++ as written stays put while next() moves on |
| SuffixNodes.NodeAtPath | src/SuffixTreeImpl.h:74-93 | a node reached along a path sits one level per step down, and its parent pointers spell that path back |
| SuffixNodes.LiveUnique | src/SuffixTreeImpl.h:74-93 | two live nodes on one path are the same node |
| SuffixNodes.LiveParent | src/SuffixTreeImpl.h:266-285 | the parent of a live node is live and holds it in exactly one slot, the one it records |
| SuffixNodes.SlotOf | src/SuffixTreeImpl.h:269-272 | std::find: the first slot holding the child, or none when no slot does |
| SuffixNodes.FirstFrom | src/SuffixTreeImpl.h:275-277 | std::find_if: the first non-null slot at or after from |
| SuffixNodes.FirstSet | src/SuffixTree.h:241-260 | the first set flag at or after from |
| SuffixNodes.NextNodeSpecBounds | src/SuffixTreeImpl.h:266-285 | nextNode returns a node one level below the node asked |
| SuffixNodes.NextNodeSuccessor | src/SuffixTree.h:147-165 | nextNode asked of c's parent returns the next live node of c's level in path order; null only when c is the last one |
| SuffixNodes.LessPathTotal | src/SuffixTree.h:333-348 | the key order iteration follows is total |
| SuffixNodes.StoreContents | src/SuffixTree.h:206-215 | LeafNode::set of slot j stores exactly one key, the leaf's path plus j, with the value |
| SuffixNodes.RemoveContents | src/SuffixTree.h:231-239 | LeafNode::erase of slot j removes exactly the key of that slot |
| SuffixNodes.EmptyLeafContents | src/SuffixTree.h:263-270 | LeafNode::clear removes exactly the keys of that leaf |
| SuffixNodes.AttachContents | src/SuffixTree.h:112-118 | creating a child stores nothing and loses nothing |
| SuffixNodes.AttachFacts | src/SuffixTreeImpl.h:217-230 | a created child is the only change: it sits in the asked slot, is live under a live parent with the path extended by the slot, and other slots and liveness are unchanged |
| SuffixNodes.DropContents | src/SuffixTree.h:167-174 | clear on a node removes exactly the keys below it, and the other values are unchanged |
| SuffixNodes.DropRoot | src/SuffixTree.h:79-85 | clear on the root leaves nothing stored |
| SuffixNodes.SameLeafNext | src/SuffixTree.h:337-339 | the next set flag of the same leaf gives the next stored key |
| SuffixNodes.FoundInNextLeaf | src/SuffixTree.h:344-347 | the first set flag of the next non-empty leaf gives the next stored key |
| SuffixNodes.NoneAfterLast | src/SuffixTree.h:344-346 | with no leaf after the current one, no stored key comes after |
| SuffixNodes.FindSlot | src/SuffixTreeImpl.h:269-272 | the std::find loop returns SlotOf |
| SuffixNodes.FindNonNull | src/SuffixTreeImpl.h:258-260 | the std::find_if loop returns FirstFrom |
| SuffixNodes.FindSetFlag | src/SuffixTree.h:241-260 | the loop of the older leaf's next and begin returns FirstSet |
| SuffixTreeImplModel.Grow | src/SuffixTreeImpl.h:77-78 | vector::resize(i + 1) keeps the old slots and fills the new ones |
| SuffixTreeImplModel.DropKeys | src/SuffixTreeImpl.h:287-300 | clear on a node removes exactly the keys below it |
| SuffixTreeImplModel.StoredLeafFacts | src/SuffixTreeImpl.h:363-380 | set on a live leaf stores exactly its slot's key with the value and changes nothing else |
| SuffixTreeImplModel.NodeStore.constructor | src/SuffixTreeImpl.h:33-38 | a root with suffixCount(root) null children; nothing stored |
| SuffixTreeImplModel.NodeStore.Copy | src/SuffixTreeImpl.h:45-65 | the deep copy has the same shape and the same contents |
| SuffixTreeImplModel.NodeStore.GetChild | src/SuffixTreeImpl.h:74-85 | grows the child list to cover i, creates a child only in a null slot, returns the same child on repeated calls, and leaves other slots and the contents unchanged |
| SuffixTreeImplModel.NodeStore.FindChild | src/SuffixTreeImpl.h:87-93 | the slot's child, null past the end; never allocates |
| SuffixTreeImplModel.NodeStore.LiveChildOf | src/SuffixTreeImpl.h:87-93 | the child of a live node is live |
| SuffixTreeImplModel.NodeStore.FindChildAsWritten | src/SuffixTreeImpl.h:232-239 | SuffixNode::findChild reads past the end exactly when i equals the size |
| SuffixTreeImplModel.NodeStore.Next | src/SuffixTreeImpl.h:95-108 | the first non-null slot after i; nothing when i is out of range or no later slot is filled |
| SuffixTreeImplModel.NodeStore.Begin | src/SuffixTreeImpl.h:110-119 | the first child; null iff every slot is null |
| SuffixTreeImplModel.NodeStore.NextNode | src/SuffixTreeImpl.h:266-285 | nextNode returns the next live node of c's level in path order |
| SuffixTreeImplModel.NodeStore.NextNodeWalk | src/SuffixTreeImpl.h:266-285 | the sibling walk, climbing to the parent, computes NextNodeSpec |
| SuffixTreeImplModel.NodeStore.Clear | src/SuffixTreeImpl.h:138-150 | the keys below the node are gone and the rest keep their values; on the root nothing is left |
| SuffixTreeImplModel.NodeStore.LeafExist | src/SuffixTreeImpl.h:390-394 | exist(i) holds exactly when the leaf's key for slot i is stored |
| SuffixTreeImplModel.NodeStore.LeafGet | src/SuffixTreeImpl.h:382-388 | get(i) succeeds exactly when exist(i) holds, with the stored value |
| SuffixTreeImplModel.NodeStore.LeafSet | src/SuffixTreeImpl.h:363-380 | grows both arrays when needed, stores the value, reports whether the slot was absent, and the contents gain or overwrite exactly that key |
| SuffixTreeImplModel.NodeStore.LeafErase | src/SuffixTreeImpl.h:396-404 | an absent slot changes nothing; otherwise the value is reset, the flag cleared, and the contents lose exactly that key |
| SuffixTreeImplModel.NodeStore.LeafNext | src/SuffixTreeImpl.h:406-413 | the first present slot after i, which is the next stored key |
| SuffixTreeImplModel.NodeStore.LeafBegin | src/SuffixTreeImpl.h:415-421 | the first present slot |
| SuffixTreeImplModel.NodeStore.LeafClear | src/SuffixTreeImpl.h:424-431 | the same slot count with every slot absent; the leaf's keys are gone |
| SuffixTreeImplModel.FindChildReadsPastEnd | src/SuffixTreeImpl.h:232-239 | at i equal to the size, SuffixNode::findChild reads past the end while RootNode's guard returns null |
| SuffixTreeModel.AttachSized | src/SuffixTree.h:100-106 | a node created at its level's size keeps every node sized |
| SuffixTreeModel.ParsedInRange | src/SuffixTree.h:427-430 | a parsed key names a slot of every level |
| SuffixTreeModel.MakeIterator | src/SuffixTree.h:368-375 | INVALID_INDEX makes the end iterator |
| SuffixTreeModel.ShapePoints | src/SuffixTree.h:231-239 | rewriting leaf slots keeps every iterator pointing at the same key |
| SuffixTreeModel.RemoveKeepsNext | src/SuffixTree.h:466-471 | removing a key keeps the key that came after it |
| SuffixTreeModel.NextAfterErase | src/SuffixTree.h:466-471 | the iterator taken before an erase is still the next one after the erased key |
| SuffixTreeModel.ItKeyStored | src/SuffixTree.h:316-321 | the key an iterator stands at is stored exactly when its slot's flag is set, with that slot's value |
| SuffixTreeModel.NextAsWrittenSound | src/SuffixTree.h:333-348 | next() as written is right whenever it moves: it lands on the first stored key after the current one; only an end it returns can be early |
| SuffixTreeModel.OldNodes.constructor | src/SuffixTree.h:26-31 | a root with suffixCount(root) null children; nothing stored |
| SuffixTreeModel.OldNodes.GetChild | src/SuffixTree.h:38-44 | creates a child only in a null slot, at the next level, live under a live parent with its path, and stores nothing |
| SuffixTreeModel.OldNodes.FindChild | src/SuffixTree.h:46-50 | the slot's child |
| SuffixTreeModel.OldNodes.LiveChildOf | src/SuffixTree.h:120-124 | the child of a live node is live, one slot further along |
| SuffixTreeModel.OldNodes.Next | src/SuffixTree.h:52-61 | the first non-null slot after index |
| SuffixTreeModel.OldNodes.Begin | src/SuffixTree.h:137-145 | the first child; null iff every slot is null |
| SuffixTreeModel.OldNodes.NextNode | src/SuffixTree.h:147-165 | nextNode returns the next live node of c's level in path order, or null when c is the last |
| SuffixTreeModel.OldNodes.NextNodeWalk | src/SuffixTree.h:63-77 | the sibling walk, climbing to the parent, computes NextNodeSpec |
| SuffixTreeModel.OldNodes.Clear | src/SuffixTree.h:167-174 | the child list becomes suffixCount(level) nulls; the keys below are gone and the rest keep their values |
| SuffixTreeModel.OldNodes.LeafExist | src/SuffixTree.h:225-229 | exist holds exactly when the slot's key is stored |
| SuffixTreeModel.OldNodes.LeafSlotKeyOf | src/SuffixTree.h:225-229 | a slot's key is stored exactly when its flag is set, with the slot's value |
| SuffixTreeModel.OldNodes.LeafGet | src/SuffixTree.h:217-223 | get succeeds exactly when exist holds, with the stored value |
| SuffixTreeModel.OldNodes.LeafSet | src/SuffixTree.h:206-215 | stores the value, reports whether the slot was absent, and the contents gain or overwrite exactly that key |
| SuffixTreeModel.OldNodes.LeafErase | src/SuffixTree.h:231-239 | an absent slot changes nothing; otherwise the contents lose exactly that key |
| SuffixTreeModel.OldNodes.LeafNext | src/SuffixTree.h:241-250 | the first present slot after index, which is the next stored key |
| SuffixTreeModel.OldNodes.LeafBegin | src/SuffixTree.h:252-260 | the first present slot; none when the leaf stores no key |
| SuffixTreeModel.OldNodes.LeafClear | src/SuffixTree.h:263-270 | the same slot count with every slot absent; the leaf's keys are gone |
| SuffixTreeModel.SuffixTree.constructor | src/SuffixTree.h:395-398 | an empty tree with size 0 |
| SuffixTreeModel.SuffixTree.Descend | src/SuffixTree.h:495-519 | applyFunc's walk gives exactly the arena WalkDown describes (the old nodes plus the missing nodes of the key's path, each attached by getChild) and reaches the live leaf of the key's first three indices; nothing stored changes |
| SuffixTreeModel.DescendStep | src/SuffixTree.h:502-505 | one getChild of the walk gives exactly the arena and node of ChildAfterGet: the existing child, or a new node of the next level hung in the slot; it is live and sized for its level |
| SuffixTreeModel.DescendPath | src/SuffixTree.h:495-519 | the three getChild calls give exactly WalkDown's arena and reach the leaf of the key's path |
| SuffixTreeModel.WalkDownSteps | src/SuffixTree.h:495-519 | three getChild steps along the key's first three indices are the walk down WalkDown defines |
| SuffixTreeModel.StoreLeafSlot | src/SuffixTree.h:432-437 | the leaf store adds or overwrites exactly that key, and reports whether it was new |
| SuffixTreeModel.EraseLeafSlot | src/SuffixTree.h:469-470 | the leaf erase removes exactly the iterator's key, and reports whether it was stored |
| SuffixTreeModel.WriteLeafSlot | src/SuffixTree.h:217-222 | a write through get's reference to a present slot sets the value under the iterator's key and keeps the keys stored and the arena's shape |
| SuffixTreeModel.SuffixTree.Insert | src/SuffixTree.h:423-440 | an unparsable key returns the end and changes nothing; otherwise the key maps to the value, size grows iff it was new, the iterator stands at the key, and the arena is exactly the walk down plus the store in the leaf |
| SuffixTreeModel.SuffixTree.InsertKey | src/SuffixTree.h:430-439 | the walk and store of insert for a parsed key, with the resulting arena given exactly |
| SuffixTreeModel.SuffixTree.Find | src/SuffixTree.h:442-457 | the end unless the key parses and is stored, then the iterator at it; the contents are unchanged, and the arena is exactly that of the walk down, which creates the key's missing nodes |
| SuffixTreeModel.SuffixTree.FindKey | src/SuffixTree.h:447-456 | the walk of find for a parsed key: exactly the walk's arena, and the iterator at the key's slot iff it is present |
| SuffixTreeModel.SuffixTree.DropSlot | src/SuffixTree.h:469-470 | erase and the size decrement drop exactly the slot's key, and size drops iff it was stored |
| SuffixTreeModel.SuffixTree.EraseSlot | src/SuffixTree.h:466-471 | the erase body as written: returns next() as written, taken before the erase; the key is gone, size drops iff it was stored, and a returned iterator stands at the first key after the erased one |
| SuffixTreeModel.SuffixTree.EraseSlotIntended | src/SuffixTree.h:466-471 | the erase body with the corrected next(): as EraseSlot, and the end comes back only when no stored key follows the erased one |
| SuffixTreeModel.SuffixTree.EraseKey | src/SuffixTree.h:459-474 | an unparsable key changes nothing; otherwise the walk down, then next() as written from the key's slot is returned, the key is gone, and size drops iff it was stored |
| SuffixTreeModel.SuffixTree.EraseAt | src/SuffixTree.h:476-484 | the end changes nothing; otherwise it.next() as written is returned, the iterator's key is gone, and size drops iff it was stored |
| SuffixTreeModel.SuffixTree.Size | src/SuffixTree.h:486 | size() is the number of stored keys |
| SuffixTreeModel.SuffixTree.Clear | src/SuffixTree.h:488-492 | size 0, the root reset to suffixCount(root) nulls, and nothing stored |
| SuffixTreeModel.SuffixTree.Value | src/SuffixTree.h:310-321 | the end throws; otherwise the stored value of the iterator's key, or the error when absent |
| SuffixTreeModel.SuffixTree.SetValue | src/SuffixTree.h:310-314 | assignment through `*it`: the end and an absent slot throw and change nothing; otherwise the stored contents become the old ones with the iterator's key mapped to v, the size and shape are unchanged, and reading through the iterator gives v |
| SuffixTreeModel.SuffixTree.IteratorNextAsWritten | src/SuffixTree.h:333-348 | next() as written computes NextAsWritten |
| SuffixTreeModel.SuffixTree.IteratorNext | src/SuffixTree.h:333-348 | next() as intended: the iterator at the first stored key after the current one, or the end when none is left |
| SuffixTreeModel.SuffixTree.IncrementAsWritten | src/SuffixTree.h:350-354 | operator++ as written leaves the iterator where it was |
| SuffixTreeModel.SuffixTree.Increment | src/SuffixTree.h:350-354 | operator++ as intended moves to the next stored key |
| SuffixTreeModel.LeavesAfterShrink | src/SuffixTree.h:341-347 | moving to the next leaf leaves fewer leaves after, so skipping empty leaves ends |
| SuffixTreeModel.EraseTwice | src/SuffixTree.h:459-474 | after erasing a key twice it is absent, and size dropped at most once |
| SuffixTreeModel.IncrementStalls | src/SuffixTree.h:350-354 | with a stored key after the iterator's, operator++ as written stays put while next() moves on |
| SuffixTreeModel.RunMetaFacts | src/ContBuilder.cpp:29-42 | the run's dictionaries (level 2 seeded c, d, e) are dense, with counts 1, 1, 3, 1, and "a-b-c-x", "a-b-d-x", "a-b-e-x" parse to [0,0,0,0], [0,0,1,0], [0,0,2,0] |
| SuffixTreeModel.FirstInsert | src/SuffixTree.h:423-440 | inserting "a-b-c-x" into the empty tree creates its whole path and stores 7 |
| SuffixTreeModel.SecondInsert | src/SuffixTree.h:423-440 | inserting "a-b-e-x" then adds only the leaf of "a-b-e" and stores 9 |
| SuffixTreeModel.ThirdFind | src/SuffixTree.h:442-457 | finding the missing "a-b-d-x" creates the empty leaf of "a-b-d" between the other two, and returns the end |
| SuffixTreeModel.FourthFind | src/SuffixTree.h:442-457 | finding "a-b-c-x" then creates nothing and stands at its slot |
| SuffixTreeModel.StopsAtEmptyLeaf | src/SuffixTree.h:341-347 | in that arena, next() as written from "a-b-c-x" reaches the empty leaf and returns the end |
| SuffixTreeModel.EraseFromFirst | src/SuffixTree.h:466-471 | erase("a-b-c-x") in that arena returns next() as written from its slot |
| SuffixTreeModel.IterationStopsAtEmptyLeaf | src/SuffixTree.h:341-347 | running the constructor, two inserts and two finds through the model's own methods: next() as written and erase("a-b-c-x") both return the end while "a-b-e-x" is still stored after it, and the corrected next() moves on |

## Left out

- I/O, clocks, CPU affinity, the global allocation hook (MemAllocHook), ContAllocator, the test entry point and the benchmark drivers are not modelled.
- Memory freeing (`delete` in `clear` and the destructors) is not modelled. Detached nodes stay in the arena, unreachable.
- Raw pointers are slot numbers; node identity and aliasing are those of the arena.
- StringArenaModel.StringArena: the growth factor `factor_` is a `double` in the source. It is modelled as an integer factor.
- StringArenaModel.StringArena.Allocate: modelled with the corrected test (a new block when the aligned copy does not fit). The as-written test is RawAllocate; see Findings. The corrected member also asks for a new block of the aligned size `alignSize(len + 1, align_)`, where the source asks for `len + 1` (src/StringArena.cpp:60). When both of those exceed `bufferSize_ * factor_`, the new block, and `bufferSize_` after it, are the aligned size rather than `len + 1`. Asking for `len + 1` would leave too little room for the aligned advance, which is the overflow of Findings row 1.
- Integer widths: `size_t` and `int64_t` are unbounded. The one place where the wrap-around matters is modelled as `ToSizeT`: the arena's comparison of a negative `sizeLeft_`.
- Characters are Dafny `char`. `strncmp` compares them by code point, as unsigned bytes compare in the source.
- Values are `int` with default 0, the value type every test instantiates. `std::unordered_map` is a Dafny `map`, and `boost::dynamic_bitset` and `std::vector<bool>` are `seq<bool>` or `array<bool>`.
- The compile-time level templates (`SuffixLevelEnum`, `NodeTraits`) are not modelled. Depth is fixed at four for the trees and the static codec, and is a parameter for the dynamic codec.
- SuffixTreeModel.SuffixTree.Insert, Find and EraseKey: the source parses with `parseKey`, whose loop does not check the token count. The containers use the arity-checked parse instead. KeyScan.ScanAgreesWithParse proves the two agree on keys with exactly one token per level and a non-empty last token. Findings row 3 gives a key where they differ.
- StaticSuffixTreeModel.StaticSuffixTree.Slot: likewise parses with the arity-checked, exact-match parse, not the as-written one, and so do Insert, Find and EraseKey, which all go through Slot. (EraseAt takes an iterator and does not parse.) In the source, the prefix match of Findings row 2 reaches the container: with the vocabulary ["aaa"] at a level, inserting a key whose token there is "aa" lands in the slot of the key with "aaa".
- StaticContBuilderModel.StaticContBuilder.KeyIndex: is the corrected, exact lookup; the prefix-matching lookup as written is StaticContBuilderModel.GetKeyIndexAsWritten (Findings row 2).
- StaticSuffixTreeModel.StaticSuffixTree.Assign: requires the other tree to share this tree's builder. The source's operator= (src/StaticSuffixTree.h:137-144) swaps builder_ too, but it swaps the members of a const by-value parameter, so that body would not compile if instantiated; the model keeps the builder fixed and does not state assignment across vocabularies.
- SuffixTreeModel.SuffixTree.constructor: fixes the per-level node sizes (`root.counts`) from the builder's dictionaries at construction. The model does not capture an aliasing in the source. The source builds `root_` from the caller's `builder` parameter, not from the copy `builder_` (src/SuffixTree.h:397), and every node keeps a reference to it (`metaInfo_`, :89, :179). So node creation and `clear` read `suffixCount` from the caller's live builder (:30, :84, :105, :173, :198), while parsing uses the snapshot `builder_`. Descend, Insert, Find and Clear give the source's arenas only while the caller's builder is alive and unchanged. If the caller registers more tokens later, new nodes and a cleared root get longer child lists in the source. If the caller's builder is destroyed first, every node creation and `clear` reads a dangling reference. `root_` was evidently meant to be built from `builder_`, which is declared and initialised first (:527-528). The container itself never registers tokens.
- SuffixTreeModel.SuffixTree.constructor: requires dense dictionaries (indices 0..n-1, each used once). Otherwise a parsed index could exceed `suffixCount`, and the source would index out of range.
- `SuffixTree::begin` is not modelled. It is an unfinished stub that names undeclared types and would not compile.
- The undefined copy constructor and assignment of `SuffixTree` are not modelled.
- The missing `return *this` of the `operator=` members of StaticSuffixTree.h:137-144 and SuffixTreeImpl.h:67-72 is not modelled. Assignment is modelled by its effect on the state only.
- SuffixTreeImplModel.NodeStore.GetChild and Clear: take the per-level counts as a parameter, standing for `metaInfo_.suffixCount`.
- The `selfIndex_` that SuffixTreeImpl.h keeps is modelled for both node implementations. The older nodes (SuffixTree.h) recover it with `std::find` on the parent.
- ContBuilderKeysModel.CopyLevel: the copy iterates the hash map in an unspecified order. Only the resulting dictionary is stated, not the order of the arena copies.
- SuffixTreeTraitsModel.SuffixTreeTraits.Assign and ContBuilderKeysModel.ContBuilderKeys.Assign: state the new dictionaries, not the swap of the temporary.
- The dictionary snapshot the containers take of their builder (`builder_` copied by value) is modelled by keeping the dictionaries in an immutable field.

## Findings

| source | as written | input that shows it | evidently intended | confidence | as-written member | corrected member |
|---|---|---|---|---|---|---|
| src/StringArena.cpp:58-67 | a new block is taken only when `len >= sizeLeft_`, but the cursor advances by the aligned size of len + 1. `sizeLeft_` can go negative, and its conversion to `size_t` then makes every later comparison false. | alignment 32, a fresh block of 2048 bytes, a token of 2047 characters, then one of 10 | take a new block when the aligned copy does not fit in what is left | not executed | StringArenaModel.RawAllocate, StringArenaModel.RawAllocateOverflows | StringArenaModel.StringArena.Allocate |
| src/StaticContBuilder.cpp:64-73 | `strncmp` on the token's length accepts any entry that the token is a prefix of | vocabulary ["aaa"], token "aa" | accept only the token itself | not executed | StaticContBuilderModel.GetKeyIndexAsWritten, StaticContBuilderModel.GetKeyIndexPrefixMatch | StaticContBuilderModel.GetKeyIndex, StaticContBuilderModel.GetKeyIndexExact |
| src/SuffixTreeTraits.h:218-242 | parseKey (also src/ContBuilder.cpp:94-118 and src/StaticContBuilder.cpp:77-101) never checks the token count, so a short key succeeds with the last levels unwritten | "a-b-c" with four levels, every token known | fail unless there is exactly one token per level | not executed | KeyScan.ScanAsWritten, KeyScan.ScanKey, KeyScan.ShortKeyScanned | KeyScan.Parse, KeyScan.ParseKey, KeyScan.ParseSound, KeyScan.ParseComplete |
| src/SuffixTreeTraits.h:288-296 | assembleKey puts the delimiter before every token, including the first | any in-range indices, e.g. tokens a, b, c, d give "-a-b-c-d" | the delimiter only between tokens, so the key parses back | not executed | SuffixTreeTraitsModel.AssembleKeyAsWritten, SuffixTreeTraitsModel.AssembleKeyAsWrittenNeverParses | SuffixTreeTraitsModel.AssembleKey, SuffixTreeTraitsModel.AssembleKeyRoundTrip |
| src/SuffixTreeImpl.h:232-239 | SuffixNode::findChild guards with `size < index`, so index == size reads one past the end | an inner node with n children, index n | `size <= index`, as RootNode::findChild has | not executed | SuffixTreeImplModel.NodeStore.FindChildAsWritten, SuffixTreeImplModel.FindChildReadsPastEnd | SuffixTreeImplModel.NodeStore.FindChild |
| src/SuffixTree.h:350-354 | operator++ (also src/StaticSuffixTree.h:72-76) calls next() and drops its result, so the iterator never moves | any iterator with a later stored key | assign next() to the iterator | not executed | SuffixTreeModel.SuffixTree.IncrementAsWritten, SuffixTreeModel.IncrementStalls, StaticSuffixTreeModel.StaticSuffixTree.IncrementAsWritten, StaticSuffixTreeModel.IncrementStalls | SuffixTreeModel.SuffixTree.Increment, StaticSuffixTreeModel.StaticSuffixTree.Increment |
| src/SuffixTree.h:341-347 | after the last slot of a leaf, next() takes begin() of the next leaf without checking it. find of a missing key creates empty leaves, so iteration ends early, and so does the iterator erase(key) and erase(it) return (src/SuffixTree.h:468, 480) | with level 2 seeded c, d, e: insert "a-b-c-x" and "a-b-e-x", then find "a-b-d-x", then next() from "a-b-c-x", or erase("a-b-c-x") | skip empty leaves and move on to the next stored key | not executed | SuffixTreeModel.NextAsWritten, SuffixTreeModel.SuffixTree.IteratorNextAsWritten, SuffixTreeModel.SuffixTree.EraseSlot, SuffixTreeModel.SuffixTree.EraseKey, SuffixTreeModel.SuffixTree.EraseAt, SuffixTreeModel.IterationStopsAtEmptyLeaf | SuffixTreeModel.SuffixTree.IteratorNext, SuffixTreeModel.SuffixTree.EraseSlotIntended |
