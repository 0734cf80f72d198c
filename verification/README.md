# Verified model of dbinfer

A Dafny model of the algorithms inside dbinfer, a command-line inference engine for transformer
language models, with proofs of what each of them is for. Verify everything with
`dafny verify dfyconfig.toml`.

## What is modelled

**Entropy coding of half-precision tensors** (`HuffmanOptimality`, `HuffmanLengths`, `CanonicalCode`,
`HuffmanStream`, `HuffmanCodec`). The heap merge, the depth-first reading of the lengths, canonical
codes as in section 3.2.2 of RFC 1951, the bit accumulator and the table-driven decoder. The lengths
are optimal and complete for every frequency table with at least two occurring symbols, decompression
undoes compression for every input that gets compressed, and whatever decompresses was read from its own
codes.

**The container of model files** (`LittleEndian`, `ByteStreams`, `GgufMetadata`, `DbmfLayout`, `DbmfFormat`,
`DbmfWriter`, `DbmfReader`, `DbmfIntegrity`, `DbmfRoundTrip`). The converter with its order of first use,
sharing of equal tensors, page alignment and optional compression; the reader with all its checks. Loading
what was converted gives back the model exactly if the model is well formed, without any assumption on the
hash function; what loads from any file has intact checksums, with the stated exceptions.

**Grammar-constrained decoding** (`GrammarRules` to `GrammarMatcher`, `GrammarUtf8`, `GrammarRepetition`). Rules are
flat element lists; their meaning is given independently by parse trees. The nullable fixpoint and
the left-recursion search are exact, expansion of stacks terminates for every accepted grammar, and
after any input the stacks derive exactly the possible completions. From this follow soundness and
completeness of token masking and of the generation loop, with exact side conditions where the code falls
short; on valid UTF-8 and with negated sets of ASCII only, masked generation spells exactly the strings of the
grammar.

**The transformer over its key/value cache** (`Transformer`, `ModelForward`). Norms, projections,
rotary embedding, attention and the feed-forward block are arbitrary functions of their arguments;
the flat cache buffers, their offsets and the loops are the program's. A chunk run layer by layer
equals its tokens run one by one, in logits and in cache contents.

**Speculative decoding** (`Speculative`). Both models are objects whose caches the rounds overwrite;
stale slots of rejected proposals are shown never to be read. The result is the target's own greedy
stream for any draft model.

**The other cache policies** (`RingCache`, `Int8Cache`). The sliding window with pinned tokens agrees
with the full history; the 8-bit cache keeps every number within half a scale step, over the reals.

**The thread pool** (`WorkSplit`, `ThreadBarrier`, `BarrierSafety`, `BarrierProgress`). One caller and
any number of workers as an interleaving of single accesses to shared memory, with a mutex, two wait
sets, bounded spinning, spurious wake-ups and the wrapping generation counter. An invariant gives
safety of every run; a measure and the absence of deadlock give that every call returns under every
schedule.

**Matrix product drivers** (`MatmulDrivers`). The fused product of several matrices and the batched
half-precision product equal the row kernels, for any split over threads.

**The tokenizer** (`Regex`, `Pretokenizer`, `BpeGreedy`, `BpeHeap`, `Utf8`, `ByteCodec`, `Tokenizer`).
The hand-written scan finds the matches of the regular expression it stands for, under the matching
order of backtracking engines; the lazy-deletion heap over a linked list yields the pieces of naive
greedy merging; decoding undoes encoding.

## How the program's terms are rendered

- Loops that update variables are methods with loop invariants, and objects that are updated in place
  are classes; each is proved against a function, and the lemmas are about the functions. A vector
  that only grows or is rewritten element by element is a sequence variable.
- Integers are unbounded, and where the program's width matters it is written out: 32-bit unsigned
  subtraction in the decoder and 64-bit sizes in the blob (`HuffmanStream.WordMinus`,
  `HuffmanCodec.Decompressed`), the 64-bit generation and the count of active workers
  (`ThreadBarrier`), 8-bit code lengths. That other counters cannot wrap is proved where it is not
  obvious (`CanonicalCode.CodeCounterBound`, `WorkSplit.SplitFits`). Blobs and inputs of the
  compressor are shorter than 2^63 bytes. Node weights of the code tree are unbounded.
- A priority queue is a sequence from which an entry that no other precedes is taken, so nothing
  depends on how ties are broken beyond the comparison.
- `parallel_for` inside attention and the products runs the ranges of the threads one after the
  other; that the pool runs each exactly once, in some order, is the subject of `BarrierSafety`.
- The attention kernel of a head gives as many entries as a head has (`Transformer.HeadsFit`).
- Batched kernels are the row kernels applied to each row, which `MatmulDrivers` justifies for
  half-precision weights. Comparison of logits is an arbitrary relation in `Speculative`.
- The pool is sequentially consistent: memory orders are not modelled. The four published fields are
  written in one step, which `BarrierSafety.TaskIsNotRaced` justifies.
- Character classes are arbitrary predicates that are disjoint where the tables are
  (`Pretokenizer.Sound`; the tables give every code point at most one category).
- Target and draft of `Speculative`, and the outputs of the jobs in `MatmulDrivers`, are distinct
  objects. The offload backend is absent.
- Sizes and offsets of a container are unbounded in the writer; the round trip is about files and
  tensors shorter than 2^63 bytes, where none of them wraps. `std::stable_sort` is an insertion sort,
  and an ordered map is read in ascending order of its keys. The lookup that throws for a compressed
  tensor that was not decoded is an error value (`DbmfReader.BuildTensor`).
- Where the code and its documentation differ the model follows the code. `complete` may hold inside
  an unfinished code point (src/grammar/grammar.cpp:640-643), and the partial test refuses some
  continuations that the grammar allows (src/grammar/grammar.cpp:104-111); both are stated with a
  concrete case and the exact condition. A text that runs past the end of the file leaves the cursor
  behind its length (src/gguf/reader.hpp:52-60), where a comment has it unmoved (src/gguf/reader.hpp:24-27).

## Model

| member | source | states |
|---|---|---|
| HuffmanOptimality.Rearrangement | src/dbmf/huffman.cpp:40-97 | giving the shorter length to the heavier of two weights never costs more |
| HuffmanOptimality.Exchange | src/dbmf/huffman.cpp:40-97 | a lightest weight can take the longest length without raising the cost or the Kraft sum |
| HuffmanOptimality.CutBack | src/dbmf/huffman.cpp:40-97 | if only one weight has the longest length, the Kraft budget lets it fall to the second longest |
| HuffmanOptimality.MergeSaves | src/dbmf/huffman.cpp:40-97 | any lengths for two lightest weights and a rest yield feasible lengths for their sum and the rest that cost at least the sum less |
| HuffmanOptimality.MergeLowerBound | src/dbmf/huffman.cpp:40-97 | a lower bound on every feasible cost after the two lightest weights are merged is, raised by their sum, a bound before |
| HuffmanLengths.PopLeast | src/dbmf/huffman.cpp:40-97 | the heap yields an entry that precedes every other by weight and then by number |
| HuffmanLengths.QueueLeaves | src/dbmf/huffman.cpp:40-97 | every occurring symbol, and no other, gets one leaf queued with its frequency |
| HuffmanLengths.MergeAll | src/dbmf/huffman.cpp:40-97 | the merge loop builds a tree over exactly the occurring symbols whose inner weight bounds the cost of every feasible code from below |
| HuffmanLengths.LengthsKraft | src/dbmf/huffman.cpp:40-97 | the lengths read off a tree fill the Kraft sum exactly |
| HuffmanLengths.LengthsCost | src/dbmf/huffman.cpp:40-97 | the cost of the lengths read off a tree is its depth-weighted leaf weight |
| HuffmanLengths.DeepCostIsInnerWeight | src/dbmf/huffman.cpp:40-97 | depth-weighted leaf weight equals the sum of the weights of the inner nodes |
| HuffmanLengths.TreeIsOptimal | src/dbmf/huffman.cpp:40-97 | a tree whose inner weight is a lower bound gives lengths no feasible assignment beats |
| HuffmanLengths.ReadLengths | src/dbmf/huffman.cpp:40-97 | the depth-first walk with an explicit stack sets every length to the leaf depth and reports the height |
| HuffmanLengths.CodeLengths | src/dbmf/huffman.cpp:40-97 | for every frequency table: lengths are positive exactly on occurring symbols; with two or more of them the code is complete (Kraft equality) and optimal among all assignments of Kraft sum at most 1; a lone symbol gets length 1 |
| CanonicalCode.FirstCodeIsKraft | src/dbmf/huffman.cpp:120-137 | the running first code of a length is the Kraft sum of the shorter lengths |
| CanonicalCode.CodesFit | src/dbmf/huffman.cpp:120-137 | all codes of a length fit that many bits whenever the Kraft sum is at most 1 |
| CanonicalCode.CodeFits | src/dbmf/huffman.cpp:120-137 | every canonical code is below the end of its length block, which fits the length |
| CanonicalCode.FirstCodePassesShorter | src/dbmf/huffman.cpp:120-137 | the codes of a length lie past every extension of all shorter codes |
| CanonicalCode.PrefixPassesShorterCodes | src/dbmf/huffman.cpp:120-137 | every proper prefix of a code, read as a number, is past all codes of the prefix length |
| CanonicalCode.PrefixFree | src/dbmf/huffman.cpp:120-137 | no code is a prefix of another, so all are distinct |
| CanonicalCode.SymbolAtRank | src/dbmf/huffman.cpp:215-230 | in the list of symbols of one length a symbol stands at its rank among them |
| CanonicalCode.IndexInRange | src/dbmf/huffman.cpp:215-230 | the index blocks of the lengths lie one behind the other inside the table of ordered symbols |
| CanonicalCode.CodeCounterBound | src/dbmf/huffman.cpp:215-260 | first code plus count stays below 2^31 for any 256 lengths up to the cap, so the 32-bit counters never wrap |
| CanonicalCode.CodeIsSharesBefore | src/dbmf/huffman.cpp:120-137 | closed form: a code is what the shorter codes, and those of its length with smaller symbols, take up at its length |
| CanonicalCode.RankOfSymbol | src/dbmf/huffman.cpp:215-230 | the symbol at a rank of a length has that length and that rank |
| HuffmanStream.PackHiStream | src/dbmf/huffman.cpp:139-160 | the bit accumulator writes the concatenated codes, most significant bit first, padded with zeros to a byte |
| HuffmanStream.MatchOnlyAtEnd | src/dbmf/huffman.cpp:232-260 | the unsigned difference test succeeds inside a code only at its true length, and then yields the rank of the symbol |
| HuffmanStream.DecodeFinds | src/dbmf/huffman.cpp:232-260 | from any place inside a code the decoder goes on to the code's symbol and stops right behind it |
| HuffmanStream.DecodeManyFinds | src/dbmf/huffman.cpp:232-260 | decoding a bit string that starts with the codes of a byte string gives that byte string |
| HuffmanStream.StreamRoundTrip | src/dbmf/huffman.cpp:139-160 | packing and decoding the high bytes is the identity |
| HuffmanStream.MatchIsCode | src/dbmf/huffman.cpp:232-260 | with any table a match is the code of the symbol it finds, so no wrapped difference matches |
| HuffmanStream.SymbolWasEncoded | src/dbmf/huffman.cpp:232-260 | with any table, prefix code or not, the bits a symbol was read from are the symbol's code |
| HuffmanStream.ManyWereEncoded | src/dbmf/huffman.cpp:232-260 | hence whatever decodes was read from its own codes, one after the other |
| HuffmanStream.CodeInStream | src/dbmf/huffman.cpp:139-160 | the code of an element starts at the sum of the lengths of the codes before it |
| LittleEndian.GetPut | src/dbmf/huffman.cpp:22-32 | reading a little-endian number that fits gives back what was written |
| LittleEndian.PutByte | src/dbmf/huffman.cpp:22-32 | byte i of a number holds its bits from 8 i on |
| LittleEndian.PutGet | src/dbmf/huffman.cpp:22-32 | any bytes are the bytes of the number they are read as |
| HuffmanCodec.SplitPlanes | src/dbmf/huffman.cpp:107-118 | the planes hold the low and the high bytes in order, and the table counts every high byte |
| HuffmanCodec.PlanesRoundTrip | src/dbmf/huffman.cpp:107-118 | interleaving the two planes restores the elements |
| HuffmanCodec.StreamLength | src/dbmf/huffman.cpp:139-160 | the length of the packed bits is the cost the code lengths minimise |
| HuffmanCodec.AssignCanonicalCodes | src/dbmf/huffman.cpp:120-137 | every symbol with a code gets the first code of its length plus its rank, within its length |
| HuffmanCodec.LengthsArePrefixCode | src/dbmf/huffman.cpp:264-292 | lengths from CodeLengths form a prefix code once none exceeds the cap |
| HuffmanCodec.HistogramCodeLengths | src/dbmf/huffman.cpp:194-213 | rejects a table exactly if some length exceeds the cap; otherwise counts every length and finds the longest |
| HuffmanCodec.BuildDecodeTables | src/dbmf/huffman.cpp:215-230 | the tables hold for every length the first code, the first index and the symbols in canonical order |
| HuffmanCodec.NextSymbol | src/dbmf/huffman.cpp:232-260 | the table-driven loop reads the symbol and the position the bit-level specification reads, or its error |
| HuffmanCodec.DecodeSymbols | src/dbmf/huffman.cpp:232-260 | decodes all symbols and interleaves them with the low bytes, or reports the error of the specification |
| HuffmanCodec.DecompressF16 | src/dbmf/huffman.cpp:294-302 | writes what the blob encodes, or reports the malformation the format specification names |
| HuffmanCodec.LengthsAreShortest | src/dbmf/huffman.cpp:264-292 | no prefix code of any depth for the high bytes has a shorter stream |
| HuffmanCodec.LengthsAreBest | src/dbmf/huffman.cpp:264-292 | the table has codes for the high bytes that occur and no others, satisfies Kraft's inequality and has the shortest stream |
| HuffmanCodec.NoBlobIsSmaller | src/dbmf/huffman.cpp:264-292 | no encoding of the input, with any other table, is smaller |
| HuffmanCodec.CompressF16 | src/dbmf/huffman.cpp:264-292 | compresses exactly when the input is even and non-empty, no length of a best table exceeds the cap and the encoding is shorter; the result is an encoding no larger than any other, and without the cap nothing that would have been smaller is given up |
| HuffmanCodec.RoundTrip | src/dbmf/huffman.cpp:264-302 | decompressing any encoding of an input gives the input |
| HuffmanCodec.BlobLayout | src/dbmf/huffman.cpp:264-292 | an encoding is the element count, the stream length, the 256 lengths, the stream and the low bytes, each at its offset |
| HuffmanCodec.DecompressedIs | src/dbmf/huffman.cpp:294-302 | whatever decompresses has as many elements as its header says, lengths within the cap and the stored low bytes as low bytes |
| HuffmanCodec.DecompressedBit | src/dbmf/huffman.cpp:232-260 | bit by bit, the stream of whatever decompresses holds the codes of the high bytes, most significant bit first |
| HuffmanCodec.DecompressedErrors | src/dbmf/huffman.cpp:294-302 | each error of the header exactly when its check is the first to fail |
| GrammarRules.MatchChar | src/grammar/grammar.cpp:67-81 | reading a set element by element decides membership as the set's meaning does and stops behind the set |
| GrammarRules.SkipSymbol | src/grammar/grammar.cpp:424-430 | skips exactly one reference or one set with its continuations |
| GrammarRules.MembersCover | src/grammar/grammar.cpp:67-81 | a set covers its single values and the ranges of those followed by an upper bound, and it reaches to the first element that does not continue it |
| GrammarRules.AcceptsIs | src/grammar/grammar.cpp:67-81 | a positive set accepts its members, a negated one all other code points |
| GrammarRules.RuleDerivesIs | src/grammar/grammar.cpp:624-638 | a rule derives what its alternates derive, which start at its front and behind every separator |
| GrammarRules.DerivesAtSet | src/grammar/grammar.cpp:67-81 | a place before a set derives the words that start with an accepted code point and go on behind the set |
| GrammarRules.DerivesAtRef | src/grammar/grammar.cpp:579-609 | a place before a reference derives a word of the rule followed by a word of what is behind |
| GrammarRepetition.ParseRepetition | src/grammar/grammar.cpp:358-376 | fails exactly without a symbol; otherwise the new rule is the one of the operator and the symbol becomes a reference |
| GrammarRepetition.RepetitionIsExact | src/grammar/grammar.cpp:358-376 | the generated rule derives exactly the words made of any number, one or more, or at most one word of the symbol |
| GrammarNullable.HasFlaggedAlternate | src/grammar/grammar.cpp:441-463 | the scan finds an alternate made of flagged references only exactly if there is one |
| GrammarNullable.SoundStep | src/grammar/grammar.cpp:441-463 | flagging such a rule keeps every flag a nullable rule |
| GrammarNullable.EmptyParseIsFlagged | src/grammar/grammar.cpp:435-465 | flags closed under a whole pass cover every derivation of the empty string |
| GrammarNullable.FixpointIsExact | src/grammar/grammar.cpp:435-465 | sound flags that a pass leaves unchanged are exactly the nullable rules |
| GrammarNullable.NullableRules | src/grammar/grammar.cpp:435-465 | the loop terminates and flags exactly the rules that derive the empty string |
| GrammarLeftRecursion.LeftRefsOf | src/grammar/grammar.cpp:470-494 | the edges of a rule are exactly the references reached through nullable prefixes |
| GrammarLeftRecursion.LeftGraph | src/grammar/grammar.cpp:470-494 | the graph built is the left-reference relation |
| GrammarLeftRecursion.BackEdge | src/grammar/grammar.cpp:495-526 | an edge from the open path's end to a grey node closes a cycle |
| GrammarLeftRecursion.RankedHasNoCycle | src/grammar/grammar.cpp:495-526 | a graph whose edges all lower a rank has no cycle |
| GrammarLeftRecursion.FindCycle | src/grammar/grammar.cpp:495-526 | the iterative search terminates with a node on a cycle, or with a rank that every edge lowers |
| GrammarLeftRecursion.CycleIsLeftRecursion | src/grammar/grammar.cpp:470-526 | a rule lies on a cycle of the graph exactly if it is left-recursive |
| GrammarLeftRecursion.LeftRecursiveRule | src/grammar/grammar.cpp:470-526 | returns a left-recursive rule exactly if there is one |
| GrammarLeftRecursion.LeftRefIs | src/grammar/grammar.cpp:470-494 | a place refers to a rule from the left if and only if nothing but references to rules that derive the empty string stands before it |
| GrammarLeftRecursion.EdgeIs | src/grammar/grammar.cpp:470-494 | a rule refers to another from the left if some alternate does at its front |
| GrammarLeftRecursion.LeftRecursiveIs | src/grammar/grammar.cpp:495-526 | a rule is left-recursive if and only if it refers to itself from the left over one or more references |
| GrammarAutomaton.LeftLoadBound | src/grammar/grammar.cpp:579-609 | the load of a place is bounded by its rank |
| GrammarAutomaton.ExpandLowersLoad | src/grammar/grammar.cpp:579-609 | replacing a reference by an alternate lowers the load of the stack down to the first entry that is not nullable |
| GrammarAutomaton.AdvanceStack | src/grammar/grammar.cpp:579-609 | terminates for every stack of every grammar without left recursion and collects the stacks of the specification without repeats |
| GrammarAutomaton.ExpandDerives | src/grammar/grammar.cpp:579-609 | a reference on top derives exactly what its alternates derive in its place |
| GrammarAutomaton.AdvanceDerives | src/grammar/grammar.cpp:579-609 | expansion adds exactly the language of the stack, for every word |
| GrammarAutomaton.AcceptChar | src/grammar/grammar.cpp:611-622 | steps every stack over one code point as the specification does |
| GrammarAutomaton.AcceptDerives | src/grammar/grammar.cpp:611-622 | accepting a code point takes the derivative of the state's language |
| GrammarAutomaton.AcceptAllDerives | src/grammar/grammar.cpp:611-622 | after any code points the state derives exactly what can follow them |
| GrammarAutomaton.StartState | src/grammar/grammar.cpp:624-638 | collects the stacks of all alternates of the root |
| GrammarAutomaton.StartDerives | src/grammar/grammar.cpp:624-638 | the start state derives exactly the strings of the grammar |
| GrammarAutomaton.Complete | src/grammar/grammar.cpp:640-643 | holds exactly if the state derives the empty string |
| GrammarAutomaton.Exactness | src/grammar/grammar.cpp:579-643 | after code points w the stacks derive exactly the completions of w; the input may end exactly if w is in the language; without stacks nothing completes w |
| GrammarFeed.DecodeUtf8 | src/grammar/grammar.cpp:23-63 | decodes with the carried state as the specification does, including where malformed input stops |
| GrammarFeed.DecodeConcat | src/grammar/grammar.cpp:23-63 | decoding two pieces in turn is decoding them together |
| GrammarFeed.DecodeSplits | src/grammar/grammar.cpp:23-63 | where the cut leaves continuation bytes the pieces of a decodable text are decodable |
| GrammarFeed.DecodeByte | src/grammar/grammar.cpp:23-63 | byte by byte: which ones end the decoding, and what each other one leaves of the code points and the unfinished one |
| GrammarFeed.MatchPartialChar | src/grammar/grammar.cpp:86-112 | decides the partial test as specified, range by range |
| GrammarFeed.BetweenEnds | src/grammar/grammar.cpp:86-103 | the code points between the two ends are those that begin with the payload and are not overlong |
| GrammarFeed.MayMatchMeaning | src/grammar/grammar.cpp:86-112 | for a positive set the test says that some completion of the bytes is in the set, for a negated one that every completion is |
| GrammarFeed.Feed | src/grammar/grammar.cpp:645-665 | yields the fed state, or nothing in the same cases as the specification |
| GrammarFeed.FedIs | src/grammar/grammar.cpp:645-665 | bytes can come next if and only if they are not empty, decode as far as they are checked, their code points are accepted and an unfinished one passes the partial test |
| GrammarFeed.SomeMayMatchIs | src/grammar/grammar.cpp:655-662 | the partial test passes if and only if the set on top of some stack may still be met |
| GrammarFeed.FeedGoesOn | src/grammar/grammar.cpp:645-665 | bytes can be fed behind others if and only if all can be fed at once and they go on with continuation bytes where the cut is inside a code point |
| GrammarFeed.FeedConcat | src/grammar/grammar.cpp:645-665 | two pieces that can be fed in turn can be fed at once, to the same state |
| GrammarFeed.FeedSplitsExactly | src/grammar/grammar.cpp:645-665 | a text that can be fed at once can be fed in two pieces exactly if the cut leaves no code point unfinished or some stack passes the partial test |
| GrammarFeed.FeedSplits | src/grammar/grammar.cpp:645-665 | with negated sets that exclude only ASCII that is always so |
| GrammarFeed.FedTextIsInLanguage | src/grammar/grammar.cpp:640-665 | a fed text that ends between code points may end exactly if it spells a string of the grammar |
| GrammarMatcher.FinishParse | src/grammar/grammar.cpp:552-577 | a parsed rule set becomes a grammar exactly if all rules are defined, all references resolve, root exists and no rule is left-recursive; each error names a real cause |
| GrammarMatcher.Matcher.constructor | src/grammar/grammar.cpp:712-716 | starts consistent, with the empty text |
| GrammarMatcher.Matcher.Mask | src/grammar/grammar.cpp:719-730 | keeps the logit of the end token if and only if the code points read so far are a string of the grammar, and that of any other token if and only if its bytes can be fed; all others become minus infinity |
| GrammarMatcher.Matcher.Accept | src/grammar/grammar.cpp:732-737 | an allowed token extends the text and the state; any other leaves the matcher unchanged |
| GrammarMatcher.Matcher.IsComplete | src/grammar/grammar.cpp:739-739 | holds exactly if the state derives the empty string |
| GrammarMatcher.Matcher.SpelledText | src/grammar/grammar.cpp:719-739 | the text taken so far is in the language exactly if the matcher is complete, when no code point is unfinished |
| GrammarMatcher.Matcher.ReadSoFar | src/grammar/grammar.cpp:640-643 | the state derives the empty string exactly if the code points of the text taken so far are a string of the grammar |
| GrammarMatcher.Matcher.KeptTokens | src/grammar/grammar.cpp:719-730 | a token's bytes can be fed exactly if the whole text with them can be fed from the start and they continue an unfinished code point |
| GrammarMatcher.GenerationIsInLanguage | src/grammar/grammar.cpp:640-643 | a generation of allowed tokens that may end spells a string of the grammar if and only if it leaves no code point unfinished |
| GrammarMatcher.LanguageIsGenerated | src/grammar/grammar.cpp:719-739 | every cut of a text of the grammar into tokens is allowed step by step, under the condition of FeedSplits |
| GrammarMatcher.LanguageIsGeneratedExactly | src/grammar/grammar.cpp:104-111 | for any negated sets: a cut of a text of the grammar into tokens is allowed step by step if and only if every cut inside a code point passes the partial test |
| GrammarUtf8.EncodedSpells | src/grammar/grammar.cpp:23-67 | the decoder that feeding uses reads the UTF-8 bytes of code points as those code points |
| GrammarUtf8.EncodingCutsWell | src/grammar/grammar.cpp:23-67 | wherever valid text is cut, the first part leaves a well-formed unfinished code point |
| GrammarUtf8.FeedingIsIndependentOfCuts | src/grammar/grammar.cpp:645-665 | with ASCII negations, feeding valid text in two pieces succeeds, fails and ends in a state exactly as feeding it at once |
| GrammarUtf8.EncodedTextIsGenerated | src/grammar/grammar.cpp:719-739 | tokens that join to the UTF-8 bytes of a text can be generated and ended if and only if the text is a string of the grammar, no token is empty and every cut inside a code point passes the partial test |
| GrammarUtf8.GenerationIsExact | src/grammar/grammar.cpp:719-739 | with ASCII negations, masked generation of valid text spells exactly the strings of the grammar, however they are cut into tokens |
| GrammarUtf8.PartialRange | src/grammar/grammar.cpp:86-103 | the partial test looks at exactly the code points whose UTF-8 bytes begin with the unfinished ones |
| GrammarUtf8.DecodeLoop | src/main.cpp:339-370 | the generation loop over mask and accept, for any choices: a run of unmasked tokens ended by an unmasked end token spells a string of the grammar if no code point is left unfinished; with ASCII negations every cut of every valid text of the grammar into non-empty tokens is such a run, and no other |
| GrammarMatcher.CompleteWhileUnfinished | src/grammar/grammar.cpp:640-643 | a concrete grammar and byte after which the automaton may stop although the text spells nothing |
| GrammarMatcher.NegationBlocksCut | src/grammar/grammar.cpp:104-111 | a concrete negated set for which a text can be fed at once but not cut inside a code point |
| Transformer.RowsAreCausal | src/model/model.cpp:919-994 | a row of a chunk depends only on the tokens up to its own |
| Transformer.RowsContinue | src/model/model.cpp:996-1015 | the rows behind a cut are those of the second part over the cache the first part leaves |
| Transformer.ChunkSplits | src/model/model.hpp:253-261 | running a chunk is running its two parts one after the other, for every cut, cache content and position: same logits, same cache |
| Transformer.ChunkIsOneByOne | src/model/model.hpp:253-261 | a chunk equals its tokens run one at a time |
| Transformer.HeadsAre | src/model/model.cpp:567-603 | entries h d to (h + 1) d of the attention are the head kernel on query slice h and on the key and value slices of key head h / gqa, for every h |
| Transformer.LayerOutIs | src/model/model.cpp:730-792 | a layer adds to its row the output projection of exactly those heads, and to that the feed-forward block |
| Transformer.RowEquation | src/model/model.cpp:919-994 | every row of a chunk satisfies the layer equation over the cached rows before the chunk and the chunk's own keys and values up to its position, rotated by their positions |
| Transformer.ChunkEquations | src/model/model.cpp:919-1015 | first rows are embeddings, logits are those of the normed last rows, and the cache changes in the chunk's positions only, to their keys and values |
| Transformer.ValuesMatter | src/model/model.cpp:592-595 | replacing any value row within reach changes the output for some kernel |
| ModelForward.RowInBuffer | src/model/model.cpp:262-268 | the offset of layer and position in the flat buffer is in range and is that of the row |
| ModelForward.OverwriteRows | src/model/model.cpp:397-402 | overwriting a stretch of the flat buffer replaces one row of one layer and no other |
| ModelForward.KVCache.constructor | src/model/model.cpp:258-273 | the buffers hold a row for every layer and position |
| ModelForward.KVCache.Append | src/model/model.cpp:386-404 | replaces exactly the key and value row of one position of one layer |
| ModelForward.KVCache.HeadAt | src/model/model.cpp:420-426 | reads the slice of the key head at the position from the flat buffer |
| ModelForward.Model.AttendDense | src/model/model.cpp:567-603 | every head: its kernel on its slice of the query and on the slices of its key head in the key buffer and in the value buffer, at positions 0 to the last one and no others |
| ModelForward.Model.HeldInBuffers | src/model/model.cpp:262-268 | the row of a layer and position stands in the flat buffer from (layer * context + position) * stride on |
| ModelForward.Model.DecodeLayer | src/model/model.cpp:730-792 | writes the rotated key projection and the value projection of the normed row at its position, nothing else, and returns the layer output over the rows up to it |
| ModelForward.Model.Forward | src/model/model.cpp:896-917 | leaves the cache and returns the logits of the token's run through all layers |
| ModelForward.Model.AppendRows | src/model/model.cpp:930-955 | appends the rows of a chunk in order before any query attends |
| ModelForward.Model.AttendRows | src/model/model.cpp:957-983 | each row of a chunk attends over the rows up to its own, although later ones are in the cache already |
| ModelForward.Model.DecodeLayerChunk | src/model/model.cpp:919-994 | one layer over all rows of a chunk gives each row its layer output |
| ModelForward.ChunkPassed | src/model/model.cpp:1011-1013 | layer after layer, the shared cache is what the interchanged loops leave |
| ModelForward.Model.ForwardChunk | src/model/model.cpp:996-1015 | all tokens per layer: the same cache and logits as the specification that Forward meets token by token |
| Speculative.ArgMax | src/sample/sample.cpp:12-28 | the index the scan keeps |
| Speculative.ArgMaxIsFirstMaximum | src/sample/sample.cpp:12-28 | with the order of the reals that is the first maximum |
| Speculative.SpeculativeMerge | src/model/speculative.cpp:10-23 | returns the length of the longest agreeing prefix and the target tokens through the first disagreement |
| Speculative.StaleSlotsUnread | src/model/speculative.cpp:36-91 | rows of a run do not depend on what the cache holds at or behind its first position |
| Speculative.CoherentRun | src/model/speculative.cpp:36-91 | run behind a coherent history, tokens give the logits of the whole text and leave the cache coherent with it |
| Speculative.CoherentPrefix | src/model/speculative.cpp:36-91 | after a rejection the cache is coherent with the shorter history |
| Speculative.RunChoosesGreedily | src/model/speculative.cpp:49-63 | the choice behind each token of a run is the model's own greedy choice |
| Speculative.CheckedAreGreedy | src/model/speculative.cpp:56-71 | while the proposals agree, the target's checks are its greedy stream, one token beyond the agreement |
| Speculative.Propose | src/model/speculative.cpp:49-54 | the draft proposes its own greedy stream and ends one slot short of it |
| Speculative.Verify | src/model/speculative.cpp:56-61 | one chunk gives the target's greedy choice behind every proposal |
| Speculative.Round | src/model/speculative.cpp:48-80 | every round keeps both caches coherent with prompt and generated tokens at the round head; with the draft equal to the target every proposal is accepted |
| Speculative.Commit | src/model/speculative.cpp:82-88 | takes tokens over until the budget is used or the end token comes |
| Speculative.Prefill | src/model/speculative.cpp:37-42 | leaves both caches coherent with all but the last prompt token |
| Speculative.SpeculativeGenerate | src/model/speculative.cpp:25-95 | for any draft, any k and n within the context: exactly the target's greedy stream of n tokens, cut before the first end token; the statistics count k proposals a round and exactly the proposals that agree with the target, all of them if the draft is the target |
| RingCache.ResidentSlotsDiffer | src/model/model.cpp:321-324 | two resident tokens never share a slot |
| RingCache.Cache.constructor | src/model/model.cpp:258-273 | starts with an empty history |
| RingCache.Cache.Append | src/model/model.cpp:386-404 | keeps every resident token's entry in its slot, for any number of appends to any layer |
| RingCache.Cache.Residents | src/model/model.cpp:406-418 | lists exactly the pinned tokens and the window, oldest first, at distinct slots that hold their entries, with rope positions 0, 1, 2 and so on |
| RingCache.Cache.ResidentIs | src/model/model.cpp:321-324 | a pinned token has its own slot, and the window goes round the slots behind them |
| Int8Cache.QuantizeIsNearest | src/model/model.cpp:303-317 | a number within 127 scales is stored as the nearest multiple, halves away from zero, and the ends as plus or minus 127 |
| Int8Cache.QuantHead | src/model/model.cpp:303-317 | every block's scale is a 127th of its largest magnitude and every entry is stored with it |
| Int8Cache.ValueError | src/model/model.cpp:303-317 | 127 scales bound every channel of the block and are attained by one of them; every value is off by at most half the scale, a 254th of the largest, and the largest is stored as plus or minus 127 |
| Int8Cache.Cache.constructor | src/model/model.cpp:258-299 | starts with empty histories and room for all groups |
| Int8Cache.Cache.RequantizeGroup | src/model/model.cpp:329-355 | scales become a 127th of the largest magnitude of the group's lossy keys per channel; the group's keys are stored anew, nothing else changes |
| Int8Cache.Cache.StoreValue | src/model/model.cpp:370-379 | stores one position's value head by head and touches no other |
| Int8Cache.FinishedScale | src/model/model.cpp:329-355 | a full group's scale does not change when later keys are appended |
| Int8Cache.Cache.Append | src/model/model.cpp:357-384 | keeps the invariant over any run of consecutive appends and changes no key or scale of a finished group |
| Int8Cache.Cache.KeyError | src/model/model.cpp:329-384 | in every reachable cache: first keys exact; per channel, 127 scales bound the lossy keys of the group and are attained by one; every key off by at most half the scale, the largest stored as plus or minus 127 |
| Int8Cache.Cache.HeadError | src/model/model.cpp:303-317 | in every reachable cache the same holds of the values, head by head and block by block |
| WorkSplit.SplitPartitions | src/tensor/thread_pool.cpp:32-40 | for any count, size and alignment every index is in exactly one range, and non-empty ranges start and end at multiples of the alignment or at the end |
| WorkSplit.SplitFits | src/tensor/thread_pool.cpp:32-40 | no product exceeds size plus alignment minus one, so machine words suffice whenever they hold that |
| WorkSplit.SplitIsEven | src/tensor/thread_pool.cpp:32-40 | all ranges have equally many blocks, or one more for earlier threads; only the last block is cut short |
| ThreadBarrier.PartsPartition | src/tensor/thread_pool.cpp:32-46 | the parts of a call hold every index exactly once, for the pooled path and for the path that runs alone |
| ThreadBarrier.ServedIs | src/tensor/thread_pool.cpp:42-46 | a call adds to a thread's log the whole range, its non-empty range or nothing |
| BarrierSafety.WorkerStepKeeps | src/tensor/thread_pool.cpp:81-110 | every step of a worker keeps the invariant of caller, lock, counters and workers |
| BarrierSafety.CallerStepKeeps | src/tensor/thread_pool.cpp:112-141 | every step of the caller keeps it |
| BarrierSafety.WakeKeeps | src/tensor/thread_pool.cpp:81-141 | so does a wake-up without a notification |
| BarrierSafety.RunKeeps | src/tensor/thread_pool.cpp:64-141 | hence every interleaving of any length does |
| BarrierSafety.RunBegins | src/tensor/thread_pool.cpp:112-141 | the calls served are the calls begun, in order |
| BarrierSafety.BegunIs | src/tensor/thread_pool.cpp:112-117 | the calls begun, each with an alignment of at least one |
| BarrierSafety.ReturnsWhenServed | src/tensor/thread_pool.cpp:96-141 | whenever the caller is back, every thread has run exactly its range of every call, once and in order, and no worker uses the published work; destruction returns only after all workers exited |
| BarrierSafety.TaskIsNotRaced | src/tensor/thread_pool.cpp:96-129 | the published function, context and size are written only while no worker reads them, and a worker runs only those of the call in progress |
| BarrierSafety.NoLostWakeUp | src/tensor/thread_pool.cpp:71-141 | a parked worker with something to do has a notification coming, and so has a caller parked on a barrier everyone has left |
| BarrierProgress.WorkerLowers | src/tensor/thread_pool.cpp:81-110 | every step of a worker lowers the measure |
| BarrierProgress.CallerLowers | src/tensor/thread_pool.cpp:112-141 | every step of the caller lowers it, including those that wake all workers |
| BarrierProgress.StepsAreBounded | src/tensor/thread_pool.cpp:27-141 | between requests the number of steps of any interleaving is bounded by the measure and the number of spurious wake-ups |
| BarrierProgress.NoDeadlock | src/tensor/thread_pool.cpp:71-141 | while a call or the destructor is in progress some thread can step |
| BarrierProgress.EveryCallReturns | src/tensor/thread_pool.cpp:112-141 | from every reachable state, under any schedule, the caller comes back within the measure |
| MatmulDrivers.MatvecQuant | src/tensor/matmul.cpp:275-281 | on any number of threads every entry is the row kernel's |
| MatmulDrivers.RunRange | src/tensor/matmul.cpp:299-309 | a range of the joint rows, clipped to each job, computes exactly its rows and leaves all others |
| MatmulDrivers.MatvecQuantFused | src/tensor/matmul.cpp:283-310 | for any jobs and any number of threads every job gets the entries of its separate product, although one quantized activation is shared |
| MatmulDrivers.OneThreadComputes | src/tensor/matmul.cpp:297-309 | every row of every job is in the range of exactly one thread |
| MatmulDrivers.MatvecF16 | src/tensor/matmul.cpp:45-54 | every entry is the fused dot product of its row |
| MatmulDrivers.FmaDotIs | src/tensor/matmul.cpp:45-54 | the dot product fuses entry i of the row and of the vector into the sum of those before it |
| MatmulDrivers.MatmulF16Rows | src/tensor/matmul.cpp:333-346 | with the loops over inputs and batch rows exchanged, every entry is the same fused dot product |
| MatmulDrivers.MatmulF16Batched | src/tensor/matmul.cpp:348-353 | a batch gives, row by row, what the kernel for one vector gives |
| BpeGreedy.MergesBest | src/tokenizer/bpe.cpp:153-160 | merging the ranked pair of lowest rank, the leftmost of those that tie, does not change the outcome |
| BpeGreedy.GreedyResult | src/tokenizer/bpe.cpp:178-228 | greedy merging keeps the text and stops only when no neighbouring pair is ranked |
| BpeGreedy.MergesUntilNone | src/tokenizer/bpe.cpp:213-228 | the outcome is the pieces themselves if and only if no neighbouring pair is ranked |
| BpeGreedy.CharsConcat | src/tokenizer/bpe.cpp:182-196 | the first pieces are non-empty and join to the word |
| BpeHeap.MergedLinks | src/tokenizer/bpe.cpp:221-224 | absorbing a neighbour in the linked list merges the two pieces and leaves the list linked |
| BpeHeap.MergedEntryOk | src/tokenizer/bpe.cpp:213-219 | after a merge the text comparison still tells fresh queue entries from stale ones |
| BpeHeap.MergedComplete | src/tokenizer/bpe.cpp:226-227 | after a merge only the two pairs at the new piece need new entries |
| BpeHeap.StaleIsNotNeeded | src/tokenizer/bpe.cpp:218-219 | a skipped entry is no current pair's |
| BpeHeap.TopIsBest | src/tokenizer/bpe.cpp:213-219 | a fresh entry at the top of the queue is the lowest-ranked, leftmost pair |
| BpeHeap.BuildSymbols | src/tokenizer/bpe.cpp:182-196 | the list starts with the pieces the lead bytes announce |
| BpeHeap.FillQueue | src/tokenizer/bpe.cpp:198-211 | every ranked pair of neighbours is queued |
| BpeHeap.Absorb | src/tokenizer/bpe.cpp:221-224 | the in-place updates of the list |
| BpeHeap.MergePair | src/tokenizer/bpe.cpp:221-227 | one merge keeps the list linked, the queue complete and the greedy outcome, and shortens the list |
| BpeHeap.MergeSymbols | src/tokenizer/bpe.cpp:213-228 | the loop terminates with exactly the pieces of greedy merging |
| BpeHeap.BpeWord | src/tokenizer/bpe.cpp:178-243 | appends the tokens of exactly the pieces that greedy merging leaves, in order, with bytes for pieces without a token |
| BpeHeap.TokensSplit | src/tokenizer/bpe.cpp:230-243 | the tokens of pieces are the tokens of each, in order |
| Tokenizer.KnownTokens | src/tokenizer/bpe.cpp:230-243 | a piece of the vocabulary becomes its id |
| Tokenizer.UnknownTokens | src/tokenizer/bpe.cpp:230-243 | any other piece becomes the ids of those of its bytes that are in the vocabulary, in order |
| Tokenizer.CharsOfEncoded | src/tokenizer/unicode.cpp:84-87 | the first pieces of encoded code points are their encodings, one each |
| Tokenizer.FirstSymbolsAre | src/tokenizer/bpe.cpp:182-196 | so are the symbols the list starts with |
| Tokenizer.FirstPieces | src/tokenizer/bpe.cpp:182-196 | the first pieces of a printed word are its printed bytes, one each |
| Regex.StarEnds | src/tokenizer/bpe.cpp:17-20 | a repetition prefers the whole run, then every shorter one |
| Regex.FirstAfterRun | src/tokenizer/bpe.cpp:17-20 | the longest prefix of a run that can be continued decides |
| Pretokenizer.NextWord | src/tokenizer/bpe.cpp:38-115 | the hand-written scan stops where the first match of the expression ends |
| Pretokenizer.EveryCharacterMatches | src/tokenizer/bpe.cpp:113-114 | some alternative matches at every character, so the last fallback is never taken |
| Pretokenizer.QwenSplit | src/tokenizer/bpe.cpp:21-118 | cuts the text into the matches of the expression, one after the other |
| Pretokenizer.WordsPartition | src/tokenizer/bpe.cpp:21-118 | the words are non-empty and in order are the whole text |
| Pretokenizer.WordEndIs | src/tokenizer/bpe.cpp:38-115 | the first alternative that matches decides, in the order contraction, letters, one number, symbols, line breaks, trailing white space, other white space |
| Pretokenizer.ContractionIs | src/tokenizer/bpe.cpp:42-57 | the contractions are an apostrophe with s, t, m, d, re, ve or ll in either case |
| Pretokenizer.LettersAre | src/tokenizer/bpe.cpp:59-67 | a run of letters, with at most one character before it that is no letter, number or line break |
| Pretokenizer.SymbolsAre | src/tokenizer/bpe.cpp:76-87 | characters that are no white space, letter or number, with at most one blank before and all line breaks behind |
| Pretokenizer.LineBreaksAre | src/tokenizer/bpe.cpp:89-101 | white space up to the last line break of its run |
| Pretokenizer.TrailingIs | src/tokenizer/bpe.cpp:102-106 | white space up to the last character before something else |
| Pretokenizer.WordsAre | src/tokenizer/bpe.cpp:21-118 | the words are stretches that end where the next word starts |
| Utf8.DecodeBytes | src/tokenizer/unicode.cpp:89-123 | decodes sequence by sequence, with a replacement character for each byte that starts none |
| Utf8.TwoAreDecoded | src/tokenizer/unicode.cpp:89-123 | two bytes, overlong or not, decode to their payload bits |
| Utf8.ThreeAreDecoded | src/tokenizer/unicode.cpp:89-123 | so do three |
| Utf8.FourAreDecoded | src/tokenizer/unicode.cpp:89-123 | and four |
| Utf8.MalformedIsReplaced | src/tokenizer/unicode.cpp:108-114 | where a continuation byte stands alone, a lead byte is invalid or a sequence is incomplete, one byte is replaced |
| Utf8.DecodesEncoded | src/tokenizer/unicode.cpp:89-143 | the bytes of a code point decode to it wherever they stand |
| Utf8.DecodeAfterEncoded | src/tokenizer/unicode.cpp:89-143 | decoding passes over encoded code points and goes on with what follows |
| Utf8.ReencodingRestores | src/tokenizer/unicode.cpp:89-143 | decoding and encoding again restores exactly the texts that are encodings, among them all valid UTF-8 |
| ByteCodec.CodePointsDiffer | src/tokenizer/unicode.cpp:32-60 | no two of the 256 bytes share a code point |
| ByteCodec.CodePointTable | src/tokenizer/unicode.cpp:32-60 | printable bytes stand for themselves, and the other 68 for 256 to 323 in their order |
| ByteCodec.Codec.constructor | src/tokenizer/unicode.cpp:32-60 | the tables built in the loops invert each other |
| Tokenizer.ReadTokens | src/tokenizer/tokenizer.cpp:49-56 | the vocabulary maps every token string to the first of its places |
| Tokenizer.ReadMerges | src/tokenizer/tokenizer.cpp:68-81 | the rank of a pair is the first place that merges it; a rule without a blank is an error |
| Tokenizer.ByteEncode | src/tokenizer/bpe.cpp:120-131 | a word spells the UTF-8 bytes of its code points with printable code points |
| Tokenizer.Pretokenize | src/tokenizer/bpe.cpp:164-171 | the words of a text in order |
| Tokenizer.WordsInAre | src/tokenizer/bpe.cpp:164-171 | a word is the printed UTF-8 bytes of the stretch of code points the expression cuts out |
| Tokenizer.UnprintsPrinted | src/tokenizer/unicode.cpp:154-162 | reading back printed bytes restores them |
| Tokenizer.WordsJoin | src/tokenizer/tokenizer.cpp:93-105 | the token strings of the ids join to the words when no piece lacks a token |
| Tokenizer.TextSpelled | src/tokenizer/bpe.cpp:164-171 | the words joined spell the re-encoded text |
| Tokenizer.Tokenizer.Encode | src/tokenizer/tokenizer.cpp:93-98 | the ids of the words in order, behind the begin token if asked for |
| Tokenizer.Tokenizer.Decode | src/tokenizer/tokenizer.cpp:100-116 | joins the known token strings and undoes the byte codec |
| Tokenizer.DecodingIs | src/tokenizer/tokenizer.cpp:100-116 | unknown ids are skipped, and a code point that stands for no byte is encoded as it is |
| Tokenizer.RoundTrip | src/tokenizer/tokenizer.cpp:93-116 | when no piece lacks a token, a text comes back if and only if re-encoding restores it; every valid UTF-8 text does |
| Tokenizer.SpecialPrefix | src/tokenizer/tokenizer.cpp:93-116 | with the begin token in front its text comes out in front |
| ByteStreams.ByteBuf.PutNumber | src/dbmf/dbmf.cpp:40-45 | appends the little-endian bytes of a number |
| GgufMetadata.PutMetaValue | src/dbmf/dbmf.cpp:59-76 | appends a value by its kind: numbers in their width, texts behind their length, arrays element by element |
| GgufMetadata.Cursor.ReadScalar | src/gguf/reader.hpp:42-50 | a read past the end fails and does not move; any other gives the number and moves behind it |
| GgufMetadata.Cursor.ReadString | src/gguf/reader.hpp:52-60 | as a scalar read; a text that runs past the end fails behind its length |
| GgufMetadata.Cursor.ReadMetaValue | src/gguf/reader.hpp:71-125 | reads a value of a type, flat arrays included, with the first error that occurs |
| GgufMetadata.ReadIsWellFormed | src/gguf/reader.hpp:71-125 | whatever the reader accepts is a well-formed value of the type asked for |
| GgufMetadata.ReadBackExactly | src/gguf/reader.hpp:71-125 | a written value is read back, up to its last byte, if and only if its numbers fit and its arrays hold scalars of their element type |
| GgufMetadata.TypesAndWidths | src/gguf/reader.hpp:71-125 | the width of every numeric type, the byte of a truth value, and the length before a text |
| GgufMetadata.ArrayTests | src/gguf/reader.hpp:97-124 | unknown element types, nested arrays and counts beyond the end are refused, each exactly then |
| DbmfLayout.OrderKey | src/dbmf/dbmf.cpp:81-92 | the sorting key with its 64-bit wrap-around |
| DbmfLayout.FirstUse | src/dbmf/dbmf.cpp:78-92 | the embedding first, then the blocks by number, then the rest, and the output head last, for numbers below 2^32 |
| DbmfLayout.DecimalIs | src/dbmf/dbmf.cpp:84-87 | a block number is read digit by digit, up to the first byte that is no digit |
| DbmfLayout.UsageOrder | src/dbmf/dbmf.cpp:94-101 | the indices of all tensors by key, equal keys in their order |
| DbmfLayout.UsageOrderIs | src/dbmf/dbmf.cpp:94-101 | every tensor once, by ascending key, equal keys as they were |
| DbmfLayout.OrderIsUnique | src/dbmf/dbmf.cpp:94-101 | no other order is stable |
| DbmfLayout.RegionsAreApart | src/dbmf/dbmf.cpp:220-250 | regions with an owner are aligned to 16384, behind the tables, inside the file, and do not overlap |
| DbmfLayout.SharersAreEqual | src/dbmf/dbmf.cpp:220-250 | tensors at one offset have equal bytes, type and form wherever something is stored, for any hash function |
| DbmfLayout.StoredOnce | src/dbmf/dbmf.hpp:26-31 | if no two different tensors share hash, size and type, then exactly the first of each class of equal tensors is stored |
| DbmfLayout.RegionsHold | src/dbmf/dbmf.cpp:313-321 | in the finished file every region holds what its owner stores |
| DbmfWriter.PrepareTensors | src/dbmf/dbmf.cpp:141-163 | an unbound tensor is an error; otherwise sizes and hashes are those of the data, and only half-precision tensors that become smaller are compressed |
| DbmfWriter.EqualCodingsAreAsLong | src/dbmf/dbmf.cpp:147-160 | equal tensors have codings of equal length |
| DbmfWriter.CompressedIfSmaller | src/dbmf/dbmf.cpp:147-160 | only half-precision tensors are compressed, if asked for, with the smallest of all encodings and only if that is smaller; they stay raw only if none is or a best table exceeds the cap |
| DbmfWriter.EncodeMetadata | src/dbmf/dbmf.cpp:165-173 | the metadata section is the entries in their order |
| DbmfWriter.BuildStringPool | src/dbmf/dbmf.cpp:180-189 | the pool joins the names in order of use and every name is found at its noted offset |
| DbmfWriter.AssignOffsets | src/dbmf/dbmf.cpp:220-250 | the map of owners yields the offset and ownership that the first tensor with the key determines, and the end of the file |
| DbmfWriter.EncodeTable | src/dbmf/dbmf.cpp:252-272 | one record of 128 bytes per tensor in order of use |
| DbmfWriter.EncodeHeader | src/dbmf/dbmf.cpp:274-295 | the header fields, the hash of those 96 bytes, and zeros up to 128 |
| DbmfWriter.WriteFile | src/dbmf/dbmf.cpp:297-324 | the regions of owners one after the other with zeros between |
| DbmfWriter.Convert | src/dbmf/dbmf.cpp:326-342 | fails exactly if a tensor has no data; otherwise writes the container of the tensors in order of use |
| DbmfFormat.FileParts | src/dbmf/dbmf.cpp:201-212 | the file is as long as its header says and has every section where the header says |
| DbmfReader.ReadHeader | src/dbmf/dbmf.cpp:361-413 | the header, or the first check that fails |
| DbmfReader.ReadMetadataSection | src/dbmf/dbmf.cpp:485-500 | the entries, or the first error |
| DbmfReader.ReadRecord | src/dbmf/dbmf.cpp:427-483 | the record, or the first check that fails; no name or data range leaves its section |
| DbmfReader.DecodeCompressedTensors | src/dbmf/dbmf.cpp:508-538 | decodes each compressed region once, in ascending order, or gives the first failure |
| DbmfReader.LoadTensor | src/dbmf/dbmf.cpp:540-567 | the tensor of a record, with its checksum checked if asked for |
| DbmfReader.Read | src/dbmf/dbmf.cpp:569-592 | loads any file shorter than 2^63 bytes, well formed or not, or gives the first error |
| DbmfReader.PowerOfTwoIs | src/dbmf/dbmf.cpp:392-393 | the bit test of the alignment accepts the powers of two and nothing else |
| DbmfIntegrity.HeaderTests | src/dbmf/dbmf.cpp:361-413 | the tests of the header in their order, and the offset of every field |
| DbmfIntegrity.RecordTests | src/dbmf/dbmf.cpp:427-483 | when a record is accepted, and the offset of every field |
| DbmfIntegrity.ExpectedSizeIs | src/dbmf/dbmf.cpp:448-467 | whole blocks, one to four dimensions, and no product beyond 64 bits |
| DbmfIntegrity.BlockSizes | src/gguf/gguf.cpp:106-150 | the block of each type is its scales and minima and its packed bits |
| DbmfIntegrity.LoadedTensor | src/dbmf/dbmf.cpp:540-567 | what loads has the tensors of the table in its order: name, type, dimensions filled up with ones, offset, and for raw ones the bytes of the region |
| DbmfIntegrity.HeaderIsIntact | src/dbmf/dbmf.cpp:361-413 | whatever loads, verified or not, has a header with its own checksum |
| DbmfIntegrity.DamagedHeaderIsRefused | src/dbmf/dbmf.cpp:394-396 | a header without its own checksum is refused with that error |
| DbmfIntegrity.VerifyChecksRawTensors | src/dbmf/dbmf.cpp:556-562 | what loads without verification loads with it to the same model if every raw tensor has the hash in its record, and otherwise fails with the error of tensor checksums |
| DbmfIntegrity.VerifiedLoads | src/dbmf/dbmf.cpp:556-562 | what loads with verification loads without it to the same model |
| DbmfIntegrity.CompressedAreChecked | src/dbmf/dbmf.cpp:508-538 | whatever loads, verified or not, has compressed tensors with the hash in their record, or in the first compressed record at their offset |
| DbmfIntegrity.DamagedRegionIsRefused | src/dbmf/dbmf.cpp:508-538 | a compressed region that decodes to something else than its hash says is refused, if the regions before it are intact |
| DbmfRoundTrip.SharedOffsetMeansEqual | src/dbmf/dbmf.cpp:220-250 | non-empty tensors that got one offset are byte for byte equal and of one type, for any hash function |
| DbmfRoundTrip.WrittenHeaderRead | src/dbmf/dbmf.cpp:361-413 | the header that was written passes all checks and is read back |
| DbmfRoundTrip.WrittenHeader | src/dbmf/dbmf.cpp:274-295 | the fields of a written header by offset: sections one behind the other, data on the next page, the flag of compression, the file size, the checksum and zeros |
| DbmfRoundTrip.RegionInFile | src/dbmf/dbmf.cpp:427-483 | the region of every tensor, shared or not, is aligned, inside the file and holds the bytes of its owner |
| DbmfRoundTrip.AllRegionsDecode | src/dbmf/dbmf.cpp:508-538 | every compressed tensor decodes to its own bytes, also when it shares a region |
| DbmfRoundTrip.WellFormedIsRestored | src/dbmf/dbmf.hpp:49-58 | every well-formed model comes back: the same metadata in order, the same tensors in order of use |
| DbmfRoundTrip.RestoredIsWellFormed | src/dbmf/dbmf.hpp:49-58 | a model that comes back unchanged was well formed |
| DbmfRoundTrip.RoundTripExactly | src/dbmf/dbmf.hpp:49-58 | loading what was converted gives back metadata and tensors if and only if sizes follow from types and dimensions, unused dimensions are 1, names are shorter than 2^32 and metadata is flat; compressed or raw, verified or not |

## Left out

- GrammarUtf8.DecodeLoop: the sampler's choices are an argument, one row of logits a step; the model's forward pass, printing and the option that stops at the first complete text are not part of it.
- HuffmanCodec.CompressF16: which of several equally good code tables is taken is not determined, so of an input with a best table over the cap it is not said whether another best table is within it.
- HuffmanCodec.DecodeSymbols: says nothing of the output buffer after an error.
- HuffmanCodec.DecompressF16: says nothing of the output buffer after an error.
- GrammarFeed.FeedSplits: the condition on negated sets is sufficient only; the exact one is in FeedSplitsExactly.
- GrammarMatcher.LanguageIsGenerated: under the same sufficient condition on negated sets; the exact one is in LanguageIsGeneratedExactly.
- Int8Cache.Cache.Append: models positions appended one after the other per layer; heads and channels of a key row are one index, and the tables have an index per dimension instead of offsets into one buffer.
- RingCache.Cache.Append: an entry is a pair of rows; the 8-bit form of the ring is not modelled.
- ThreadBarrier: weak memory orders, exceptions thrown by the function, and several callers at once, which the pool does not support.
- The text syntax of grammars (names, escapes, groups, character classes) except repetition operators: parsing starts from rules.
- The search for a shortest completion of a grammar (src/grammar/grammar.cpp:667-710): it follows only the lower end of each range.
- Text fed with malformed continuation bytes beyond what the decoder does with it: no claim is made that it spells anything.
- Numerical behaviour of norms, rotary embedding, softmax, activations and half-precision conversion.
- Attention over the 8-bit and the ring cache, prefix files of the cache, and offload to a graphics processor.
- DbmfReader.LoadTensor: a compressed record that shares its offset with an earlier one of another size gets all the bytes decoded for the earlier one; the converter writes no such records.
- DbmfReader.DecodeCompressedTensors: every region is decoded into a buffer of its own; the one mapping that holds them all, and the 64-bit sum of its size, are not modelled.
- Memory mapping, errors of the file system, the reader of GGUF files and the coercions of metadata numbers (src/gguf/gguf.cpp, src/gguf/mmap_file.cpp, src/gguf/reader.hpp:131-172).
- The hash function of the container is an arbitrary function of the bytes to 64 bits.
- Quantized row kernels and their vector instructions: a row kernel is an arbitrary function of the row and the activation.
- Sampling, penalties, command line, benchmarks.
- The tables of Unicode categories, and the errors for metadata of a wrong type when a tokenizer is loaded.
