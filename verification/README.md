# Huffman codec and route tree, modelled in Dafny

This project models two parts of a small C file-compression server.

The first is its Huffman codec (`src/tree.c`, `src/node.c`). Compression runs four stages in order:

1. Count the bytes (`gen_freq_arr`).
2. Build the tree by repeatedly sorting the active nodes by (frequency, symbol) and merging the two least (`build_tree`, `merge_node`).
3. Derive each leaf's code from its path (`get_code`) and render a code table of `"%x=%s"` entries sorted by symbol (`cal_code_table`).
4. Spell the input with those codes as ASCII '0'/'1' characters (`encode`).

Decompression reverses this:

1. Collect the header tokens before the "Uncompressed" line (`get_header`).
2. Find the payload 16 bytes past the "Compression" token (`get_encoded_data`).
3. Rebuild the tree from the code paths (`build_tree_from_header`).
4. Walk the tree for each code (`_decode`, `decode`).

The second part is the router's binary search tree of routes keyed by URI under `strcmp` (`src/route.c`).

Modelling choices:

- **Symbols.** A symbol is a signed `char` (-128..127). `%x` renders its 32-bit unsigned promotion, and `(char)byte` narrows the parsed value back (module `Symbols`).
- **Trees.** Trees are immutable datatypes. The parent pointers of the source are replaced by root-to-node paths (`Shape.At`).
- **Undefined behaviour.** Where the source reads out of bounds or loops forever, the model returns a named `Error` instead (module `Errors`). Examples are a scratch-array overrun, a missing sentinel, or a payload that ends mid-code.
- **Modules.**
  - `Frequency`: counting.
  - `Build` and `Scratch`: tree building, both as a sort-and-merge definition and as the index-level loop over the scratch array.
  - `Codes`: code derivation and the code table.
  - `Text`: the header and payload scanners.
  - `Entries`: reading one `"%x=%s"` entry.
  - `Encoding`, `Decoding`: the two directions of the codec.
  - `Pipeline`: compression and the round trip.
  - `AsWritten`: the compress pipeline as the program runs it, and where it differs from `Pipeline`.
  - `Router`: the route tree.

Three behaviours of the program are easy to miss:

- **Byte with no table entry.** `encode` emits nothing for a byte that no table entry names; it does not fail.
- **Single-symbol input.** An input with exactly one distinct byte cannot be compressed. As written, `compress` overruns the scratch array of `build_tree` when the input is a single byte, and otherwise `get_code` reverses the empty code of the lone leaf with a wrapped index. With both corrected, `encode` rejects the entry "<hex>=" that the empty code renders to.
- **Malformed header entry.** `build_tree_from_header` ignores the result of `sscanf`, so nothing rejects such an entry. The model fails closed here (see Left out).

Two defects of the code are listed under Findings: the scratch array of `build_tree` is too small, and `get_code` mishandles the empty code. `Pipeline.Compress` is the pipeline with both corrected, and the round-trip lemmas are stated about it. `AsWritten.CompressAsWritten` is the pipeline as written, and the lemmas about it say on which inputs it fails and that it agrees with `Pipeline.Compress` on all others.

## Model

| member | source | states |
|---|---|---|
| Nodes.CreateNode | src/node.c:9-18 | a new node holds the given symbol, has count 1 and no children |
| Nodes.InitNodeArr | src/node.c:25-29 | slots `[0, len)` become null and every other slot is unchanged |
| Frequency.GenFreqArr | src/tree.c:29-52 | `size` is the number of distinct bytes; slot j holds the j-th distinct byte in first-occurrence order, with its occurrence count; the counts sum to the input length; the slots past the input length are untouched |
| Frequency.FrequenciesSpec | src/tree.c:37-51 | the counted leaves are one per distinct byte, in first-occurrence order, each with its exact number of occurrences |
| Frequency.FrequenciesTotal | src/tree.c:37-51 | the counts add up to the input length |
| Build.CompareNode | src/tree.c:61-68 | negative, zero or positive exactly as the first node sorts before, equal to, or after the second by (frequency, then symbol) |
| Build.CompareChar | src/tree.c:70-75 | the sign of the result is the order of the two symbols as signed bytes |
| Build.MergeNode | src/tree.c:83-94 | the new node's count is the sum of the two; its left child is the argument with the strictly smaller symbol (`b` on a tie); it carries the left child's symbol; its leaves are the left child's followed by the right child's |
| Build.StepTakesTwoLeast | src/tree.c:112-118 | one build round merges two active nodes that no other active node sorts before; every other active node survives; the merge is appended |
| Build.QsortOrderIsUnique | src/tree.c:113 | while each symbol occurs in at most one active node, any order sorted by (frequency, symbol) is the one the model uses, so the unstable `qsort` cannot change the tree |
| Build.BuildFromSpec | src/tree.c:102-122 | the root built from the active nodes is a well-formed merge tree over exactly their leaves, and its count is the sum of their counts |
| Build.BuildTreeSpec | src/tree.c:102-122 | empty input gives no root; otherwise: a strict binary tree whose leaves are the distinct bytes, each once; k − 1 internal nodes for k distinct bytes; root count equal to the input length |
| Scratch.ScratchLoopSpec | src/tree.c:108-119 | the rounds from the active slice `tmp[i..end)` stay inside the array exactly when `2*end - i` slots exist, and then build the same tree as the sort-and-merge definition |
| Scratch.BuildTreeScratchFails | src/tree.c:108-119 | the scratch loop fails exactly when there are leaves and fewer than twice as many slots as leaves |
| Scratch.ScratchOverrunAsWritten | src/main.c:22-26 | with the scratch array sized by the input length, as the caller passes it, the build overruns exactly when the input has fewer than twice as many bytes as distinct bytes |
| Scratch.ScratchOverrunExample | src/tree.c:108-118 | the input "ab" overruns the scratch array |
| Scratch.ScratchCorrected | src/tree.c:102-122 | with twice the leaf count in slots, the scratch loop never overruns and builds the tree `BuildTree` defines |
| Codes.LeafPathsSpec | src/tree.c:129-150 | each leaf's code is a '0'/'1' path that leads from the root to that leaf and is no longer than the tree's height |
| Codes.PrefixFree | src/tree.c:129-150 | no leaf's code is a prefix of another leaf's code |
| Codes.GetCode | src/tree.c:129-150 | walking the parent links and reversing gives exactly the node's root-to-node path, for every path including the empty one (with the reversal guarded against the empty code) |
| Codes.ReverseAsWrittenSpec | src/tree.c:146-147 | the unguarded reversal succeeds exactly on nonempty codes and reverses them; on the empty code its start index is 2^64 − 1 |
| Codes.GetCodesAsWrittenSpec | src/tree.c:129-150 | with the unguarded reversal, `get_code` returns every code unchanged exactly when none is empty, and otherwise fails on the wrapped index |
| Codes.CalCodeTableAsWrittenSpec | src/tree.c:146-172 | with `get_code` as written, the table of a tree whose root is a leaf fails on the wrapped index, and every other tree gets the table of the guarded code walk |
| Codes.CalCodeTableSpec | src/tree.c:159-173 | one entry per leaf, a permutation of the leaf paths, strictly ascending by symbol when symbols are distinct; each entry names a leaf by its path and renders as lower-case hex, '=', then the code |
| Symbols.Unsigned32 | src/tree.c:169 | the `%x` value of a char is below 2^32, and narrowing it with `(char)` gives the char back |
| Symbols.HexDigits | src/tree.c:169 | `%x` prints lower-case hex digits, with no leading zero, whose value is the number printed |
| Entries.ParseEntrySpec | src/tree.c:249-253 | a parsed entry has a value below 2^32 and a code that is a token fitting the 256-byte buffer |
| Entries.ParseRendered | src/tree.c:249-255 | reading back an entry rendered from a nonempty bit code gives the symbol's `%x` value and the code |
| Entries.ParseEmptyCode | src/tree.c:249-253 | an entry rendered with an empty code ("61=") does not convert both fields |
| Encoding.LookupParsed | src/tree.c:246-270 | over a table whose entries all parse, the inner loop yields the code of the first entry that names the byte, or nothing |
| Encoding.EncodeSpell | src/tree.c:234-288 | over a table whose entries all parse, `encode` is the in-order concatenation of each byte's code |
| Encoding.LookupFails | src/tree.c:246-253 | the inner loop aborts if and only if some entry fails to parse before any entry names the byte |
| Encoding.EncodeFails | src/tree.c:245-272 | `encode` aborts if and only if the inner loop aborts for some input byte |
| Encoding.CodeInAbsent | src/tree.c:245-272 | a byte that no entry names contributes nothing |
| Encoding.SpellConcat | src/tree.c:267-268 | the output for `a + b` is the output for `a` followed by that for `b`; the lengths add |
| Encoding.SpellBits | src/tree.c:234-288 | with bit codes in the table, the output holds only '0' and '1' |
| Encoding.ParseRenderedTable | src/tree.c:249-253 | a table rendered from nonempty bit codes parses back entry by entry |
| Encoding.EmptyCodeAborts | src/tree.c:249-253 | a table whose entry has an empty code aborts the encoding of any nonempty input |
| Text.HeaderOfWords | src/tree.c:181-202 | over a text of separated tokens, `get_header` returns exactly the tokens before the first one beginning with "Uncompressed" |
| Text.NoSentinelNoHeader | src/tree.c:188-198 | a text that never spells "Uncompressed" yields no header |
| Text.EncodedDataOfWords | src/tree.c:210-225 | over a text of separated tokens, the payload offset is 16 bytes past the separator of the first token beginning with "Compression" |
| Decoding.BuildTreeFromHeader | src/tree.c:294-327 | a successful rebuild gives a root node and returns the number of entries |
| Decoding.InsertAllRendered | src/tree.c:301-324 | over a header rendered from nonempty bit codes, the rebuild plants exactly those codes in order |
| Decoding.InsertAt | src/tree.c:306-321 | inserting a code adds nodes exactly along its path, stores the symbol at its end, and keeps every other existing node's data |
| Decoding.PlantNode | src/tree.c:301-324 | after planting, a node exists at a path iff it existed before or the path is a prefix of some planted code |
| Decoding.PlantData | src/tree.c:301-324 | with distinct codes, each planted code ends at a node holding its symbol |
| Decoding.PlantReads | src/tree.c:294-327 | planting prefix-free, branching codes gives a tree whose every node above a code's end has two children and whose code ends are childless and hold their symbols; with two or more codes the root has two children |
| Decoding.Descend | src/tree.c:351-354 | the descent ends at a node without two children; it consumes at least one character when starting from a node with two children, and never reads past the payload |
| Decoding.DescendCode | src/tree.c:351-354 | descending along a code reaches that code's end and consumes exactly the code, whatever follows it |
| Decoding.DecodePayload | src/tree.c:336-369 | a null root is an error; an empty payload decodes to nothing; the output is no longer than the payload |
| Decoding.DecodeLength | src/tree.c:350-365 | every emitted symbol consumes at least one payload character |
| Decoding.DecodeSpelled | src/tree.c:350-365 | a payload that spells codes the tree reads decodes to the symbols of those codes, in order |
| Pipeline.DecodeArtifact | src/tree.c:391-400 | on a written artifact, `decode` rebuilds the tree from the table entries and decodes exactly the payload |
| Pipeline.DistinctAtMost256 | src/tree.c:184-196 | an input has at most 256 distinct bytes, so its table fits the 256 header slots |
| Pipeline.CompressMany | src/main.c:25-29 | with at least two distinct bytes, compression writes the rendered table and the input spelled with its codes |
| Pipeline.EmptyRoundTrip | src/main.c:17-54 | the empty input compresses to a bare trailer, which decodes to nothing |
| Pipeline.RoundTrip | src/main.c:17-54 | for zero or at least two distinct bytes, and codes short enough to render in full, compression succeeds and decoding gives the input back |
| Pipeline.SingleSymbolFails | src/tree.c:249-253 | with the build and the code walk corrected, an input with exactly one distinct byte still cannot be compressed: its only entry has an empty code and `encode` rejects it |
| AsWritten.CompressAsWrittenOverruns | src/main.c:22-26 | as written, compression of an input with fewer than twice as many bytes as distinct bytes overruns the scratch array |
| AsWritten.AbOverruns | src/main.c:22-26 | as written, compressing "ab" overruns the scratch array |
| AsWritten.AsWrittenTree | src/main.c:22-28 | with room for the merges, the scratch build gives the counted tree; its root is a leaf exactly for one distinct byte, and then the table as written fails; otherwise it is the corrected table |
| AsWritten.SingleSymbolAsWritten | src/main.c:22-28 | as written, an input with one distinct byte fails: a single byte overruns the scratch array, a longer run makes the reversal index of `get_code` wrap |
| AsWritten.CompressAsWrittenAgrees | src/main.c:17-29 | as written, compression of an input with at least twice as many bytes as distinct bytes, and not exactly one distinct byte, gives what the corrected pipeline gives |
| AsWritten.RoundTripAsWritten | src/main.c:17-29 | as written, compression of such an input succeeds and decoding gives the input back, for codes short enough to render in full |
| Shape.HeightAtMostInternal | src/tree.c:136-142 | no leaf lies deeper than the number of internal nodes, so the walk of `get_code` stays far below the size_t range |
| Router.StrCmpZero | src/route.c:50-57 | on NUL-free strings, `strcmp` is zero exactly on equal strings |
| Router.InitRoute | src/route.c:12-20 | a new route holds the key and the value, has no children, and is a search tree with that one key |
| Router.InitRouter | src/route.c:86-96 | a new router has an empty route tree |
| Router.AddRouteSpec | src/route.c:43-58 | adding a route keeps the search-tree order under `strcmp` and adds exactly its key |
| Router.AddRouteKeepsOthers | src/route.c:43-80 | adding a route leaves the search for every other key alone: the same keys are found, holding the same values |
| Router.AddRouteExisting | src/route.c:50-52 | adding a key already present leaves the tree unchanged, so the first value wins |
| Router.SearchRouteSpec | src/route.c:66-80 | search finds a node iff the key is in the tree, and the node found holds that key |
| Router.AddThenSearch | src/route.c:43-80 | after adding a fresh key, searching for it finds the value just added |
| Router.ListRoutesSpec | src/route.c:26-34 | listing visits every key once, in strictly ascending `strcmp` order |
| Router.ListRoutesValues | src/route.c:26-34 | every listed pair holds its key's own value: searching for the listed key finds a route with that value |

## Left out

- Logging, allocation failure, `realloc` growth schedules, `swap` through a heap temporary, and freeing (`destroy_node`, `destroy_header`): buffers are sequences and trees are immutable values.
- The CLI, the HTTP server, configuration parsing and file I/O: the codec is modelled on in-memory text.
- The body of `write_header` is not part of this model. The artifact's trailer is built from its three fields, two numerals and a 16-character ratio text, which are inputs. Its layout is the one both readers rely on: the "Uncompressed" token first, "Compression" last before the payload. The floating-point ratio computation is not modelled.
- NUL termination of the encoded and decoded buffers: sequences carry their length.
- Frequency.GenFreqArr: does not model the reads of `data[0]` before the loop and `data[data_len]` after the last byte. Both fall outside the input (the first only on empty input), and their values are never used.
- Entries.ParseEntry: accepts only 1 to 8 hex digits after optional white space. A sign, a "0x" prefix or longer digit runs, which `%x` would also take, are reported as malformed. Rendered entries never contain them.
- Decoding.InsertAll: an entry that does not convert both fields is reported as an error. The source ignores `sscanf`'s result and walks with uninitialised values.
- Text.GetHeaderFrom: reports `MissingSentinel` at the end of the text. There the source's loop repeats, because `sscanf` returns EOF, which is nonzero.
- Text.GetHeaderFrom: reports `TokenTooLong` for a token that does not fit the 256-byte line buffer, and `HeaderOverflow` past 256 entries. Both are overruns in the source.
- Text.GetHeaderFrom: counts the header from zero. The source starts from the tree's existing `size`, which is zero on a fresh tree.
- Decoding.Descend: reports `Truncated` when the payload ends in the middle of a code. The source reads on past the payload.
- Decoding.DecodeFrom: reports `Diverges` for a root without two children and payload left. The source loops forever there.
- Decoding.Decode: reports `PayloadOutOfRange` when the payload offset lies past the end of the text. There the source's unsigned length subtraction wraps.
- Pipeline.Compress: models the pipeline with both defects under Findings corrected: a scratch array of twice the leaf count, and a guarded reversal in `get_code`. AsWritten.CompressAsWritten is the pipeline as written.
- Pipeline.RoundTrip: is stated about the corrected pipeline. As written, compression overruns on inputs with fewer than twice as many bytes as distinct bytes, "ab" among them (AsWritten.CompressAsWrittenOverruns); AsWritten.RoundTripAsWritten states the round trip for the remaining inputs.
- Pipeline.CompressMany: is stated about the corrected pipeline; AsWritten.CompressAsWrittenAgrees says where the pipeline as written gives the same result.
- Pipeline.SingleSymbolFails: is stated about the corrected pipeline. As written, an input with one distinct byte fails earlier, in `build_tree` or `get_code` (AsWritten.SingleSymbolAsWritten).
- Codes.CalCodeTableSpec: is stated about the guarded code walk, which renders a one-leaf tree's entry as "<hex>=". As written, `get_code` fails on that tree first (Codes.CalCodeTableAsWrittenSpec).
- Pipeline.RoundTrip: requires every code to be at most 246 characters long. A longer code's entry is cut at 255 characters by `snprintf`, and the model does not state what decoding then does.
- Pipeline.RoundTrip: excludes inputs with exactly one distinct byte. For those, Pipeline.SingleSymbolFails states that compression fails.
- Frequency.FrequenciesSpec: counts are unbounded integers. The node's count field is declared in `include/node.h`, which is not part of this model; as a C `int` it would overflow on an input of 2^31 or more equal bytes.
- Build.BuildTreeSpec: the root's count is the input length as an unbounded integer. A C `int` count would overflow for inputs of 2^31 bytes or more.
- Pipeline.RoundTrip: does not bound the input length. The `int` counts of the nodes and the `int` offsets of `get_header` and `get_encoded_data` (src/tree.c:185, src/tree.c:213) overflow for inputs or artifacts of 2^31 bytes or more; the model does not promise anything about that range.
- Text.GetHeaderFrom: the offset `cur_idx` is an `int` in the source and an unbounded integer here; the model does not model its overflow past 2^31 − 1.
- Symbols: a node's symbol is a plain `char`, which the model fixes as signed (-128..127), as on x86-64. C leaves the signedness of plain `char` to the implementation. Where `char` is unsigned, bytes 0x80 and above sort after the others in `compare_char` and `compare_node`, and `%x` renders them as two hex digits instead of the sign-extended 32-bit value.
- Router.ListRoutes: returns the (key, value) pairs in visiting order instead of printing them.
- Router.AddRoute: does not model the duplicate-key warning it prints.
- Router: route keys are required to hold no NUL character, as C strings do; `strcmp` stops at the terminator.
- Router.InitRouter: does not model the allocation failure that exits the process, nor the function-pointer table.

## Findings

| source | as written | input that shows it | evidently intended | confidence | as-written member | corrected member |
|---|---|---|---|---|---|---|
| src/tree.c:108-118 | `build_tree` copies `len` slots into its scratch array, and the caller passes the input length; the k − 1 merges need 2k slots | "ab": two leaves in two slots, so the first merge is written to `tmp[2]` | a scratch array of at least twice the leaf count | not executed | Scratch.ScratchOverrunAsWritten | Scratch.ScratchCorrected |
| src/tree.c:146 | the reversal starts `j` at `strlen(code) - 1` with no check for an empty code | any input with one distinct byte, e.g. "aaa": the root is the leaf, its code is empty, and `j` wraps to 2^64 − 1 | skip the reversal for an empty code | not executed | Codes.CalCodeTableAsWrittenSpec | Codes.GetCode |
