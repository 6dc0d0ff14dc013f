# code-splitter, modelled in Dafny

This project models the core of code-splitter, a Rust library that cuts source code into
chunks along its syntax tree. It keeps each chunk's size within a budget, where size is
measured by a pluggable metric (a `Sizer`).

`split_node` works on one syntax node at a time:

- A node whose text measures 0 gives no chunks.
- A node that fits the budget becomes one chunk covering exactly that node.
- Otherwise the children are split one level deeper, in document order.
- The children's chunk lists are then folded left to right. At each boundary, the last chunk
  so far (the tail) merges with the first chunk of the next list (the head) when the text
  from the tail's start to the head's end, measured afresh, still fits.

Any UTF-8 or metric failure aborts the whole call.

Modules, one per file:

- `Results` (results.dfy): the error kinds and the `Result`/`Option` values every operation returns.
- `Utf8` (utf8.dfy): strict UTF-8 decoding (`str::from_utf8`), lossy decoding
  (`String::from_utf8_lossy`, maximal-subpart replacement), and encoding as the partner of
  both. Well-formedness follows Table 3-7 of the Unicode Standard, chapter 3.
- `Words` (words.dfy): `str::split_whitespace` over the Unicode White_Space property, and the
  word count used by both word metrics. An independent description counts word beginnings.
- `Chars` (chars.dfy): the character metric, which counts Unicode scalar values.
- `Sizers` (sizers.dfy): the metric as a datatype. It is the character counter, the word
  counter, or an arbitrary fallible function standing for a tokenizer.
- `Syntax` (syntax.dfy): the parser's tree (`Node`, `Range`, `Point`) and what it means for a
  tree to be well formed for the code it was parsed from.
- `Chunks` (chunk.dfy): the `Chunk` record, `utf8_lossy`, and the printed header line.
- `TreeSplitter` (splitter.dfy): the splitter configuration, `split`, `split_node`, the merge
  fold and `joined_size`.

## Model

| member | source | states |
|---|---|---|
| TreeSplitter.WordsSplitter | src/splitter/words.rs:13-18 | `Splitter::words()` measures with the word metric and has the default budget of 512 |
| TreeSplitter.WithCharCounter | src/splitter/chars.rs:28-30 | `with_char_counter` measures with the character metric; its budget is the default 512 |
| TreeSplitter.WithMaxChunkSize | src/splitter.rs:30-33 | replaces the budget and keeps the metric |
| TreeSplitter.Measure | src/splitter.rs:53-54 | ill-formed UTF-8 in the measured bytes `[lo, hi)` is a UTF-8 error; with a built-in metric, no other error can occur |
| TreeSplitter.MergeStep | src/splitter.rs:75-94 | the three merge cases. An empty side leaves `acc ++ next`. A joined size over budget keeps the tail and appends `next` unchanged. A fitting joined size replaces tail and head by one chunk: the tail's start byte and start point, the head's end, both traces in order, and the joined size. A joined-size error aborts. Order, span, emptiness and soundness of the chunks are preserved; the result coarsens `acc ++ next`, and an error is a failing joined measurement between two of its chunks |
| TreeSplitter.MergedSpans | src/splitter.rs:80-84 | the merged chunk runs from the tail's start byte to the head's end byte, so tail and head both lie inside it; its trace is the tail's lines followed by the head's; its size is the joined size |
| TreeSplitter.MergeCoarsens | src/splitter.rs:76-93 | replacing tail and head by their merge coarsens ordered chunks: no more chunks than before, every old chunk inside some new one, and every new chunk starting and ending where old ones do |
| TreeSplitter.MergeKeepsSound | src/splitter.rs:78-84 | a merged chunk is within budget, and its stored size is the metric applied afresh to its own byte range |
| TreeSplitter.MergeKeepsOrder | src/splitter.rs:81-84 | a merge keeps chunks ordered and non-overlapping, and keeps the first start and the last end |
| TreeSplitter.Fold | src/splitter.rs:75-95 | the `try_fold` from an accumulator `acc` over the lists: the result is ordered, and sound when the input chunks `acc ++ concat(lists)` are; it is empty only when the input is and spans the same bytes; it coarsens the input, so every input chunk lies inside an output chunk and every output chunk starts and ends at input chunk boundaries. An error is a failing joined measurement between two input chunks, and a failing join of the accumulator's tail with the next head is the result |
| TreeSplitter.FoldMerges | src/splitter.rs:68-95 | folding the children's lists from an empty accumulator: every chunk of every list lies inside some chunk of the result, which coarsens their concatenation; an error is a failing joined measurement between their chunks; a failing join at the first boundary is the result, and a fitting one puts the first list's last chunk and the second list's first chunk inside one chunk of the result |
| TreeSplitter.SplitNode | src/splitter.rs:52-98 | a node whose measurement fails gives that error; size 0 gives no chunks; a fitting size gives exactly one chunk with the node's range and the measured size; an oversized node without children gives no chunks; a child's failure aborts an oversized node; every chunk returned is within budget, re-measures to its stored size, lies inside the node, and chunks are in ascending order without overlap |
| TreeSplitter.SplitNodeDescends | src/splitter.rs:68-97 | an oversized node's result comes from its children's own `split_node` results: a failing child gives the first child's error; otherwise every chunk of every child's result lies inside a chunk of the node's result, which coarsens their concatenation, an error is a failing `joined_size` between two of their chunks; a failing `joined_size` at the first boundary is the result, and a fitting one leaves the first child's last chunk and the second child's first chunk inside one chunk of the result |
| TreeSplitter.LeafSound | src/splitter.rs:60-66 | a node measured within budget becomes one chunk with one trace line, the node's range and the measured size, and that chunk re-measures to its size |
| TreeSplitter.SplitChildren | src/splitter.rs:68-97 | the descent into an oversized node: no children give no chunks; the result is ordered, sound and inside the node; a child's failure aborts it |
| TreeSplitter.ChildrenDescend | src/splitter.rs:68-95 | the descent gives the first failing child's error, or else the fold of the children's lists with everything `FoldMerges` states of it |
| TreeSplitter.SplitEach | src/splitter.rs:68-72 | the children's chunk lists are each child's own `split_node` result, in document order; if any child fails, the whole collection fails |
| TreeSplitter.SplitEachFailsFirst | src/splitter.rs:68-72 | a failing collection fails with the error of the first failing child in document order, and every child before it succeeded |
| TreeSplitter.FoldJoins | src/splitter.rs:75-93 | when the accumulator's tail and the next head measure, joined, within budget, a successful fold has one chunk containing both, whatever later steps merge |
| TreeSplitter.FoldFirstMerge | src/splitter.rs:75-93 | from an empty accumulator, a fitting join of the first list's last chunk with the second list's first chunk puts both inside one chunk of a successful result |
| TreeSplitter.MergePair | src/splitter.rs:76-84 | two single chunks whose joined text fits become exactly one merged chunk |
| TreeSplitter.FoldPair | src/splitter.rs:75-93 | folding two one-chunk lists whose joined text fits gives exactly their merge |
| TreeSplitter.SiblingLeaves | src/splitter.rs:60-72 | two children that each fit give exactly the lists `[[leaf a], [leaf b]]` one level deeper, in order |
| TreeSplitter.SiblingLeavesMerge | src/splitter.rs:52-97 | an oversized node whose two children each fit, and whose children's joined text fits, gives exactly one chunk: the merge of the two children's leaves, from the first child's start to the second child's end with the joined size |
| TreeSplitter.FlattenInOrder | src/splitter.rs:68-72 | children in document order give concatenated chunk lists that are ordered, sound and inside the parent |
| TreeSplitter.ChildrenReady | src/splitter.rs:68-75 | the concatenated chunk lists of a well-formed node's children lie in the code, are ordered, and start and end inside the node |
| TreeSplitter.OrderedWithinSpan | src/splitter.rs:93 | in an ordered chunk sequence every chunk lies between the first start and the last end |
| TreeSplitter.OrderedPairwise | src/splitter.rs:93 | in an ordered chunk sequence, each chunk ends before every later chunk begins |
| TreeSplitter.Split | src/splitter.rs:36-49 | empty input gives no chunks for every metric and without parsing; a parser failure is returned as is; otherwise the result is `split_node` of the root at depth 0, so every chunk is within budget (budget 50 gives sizes of at most 50), re-measures to its stored size, and chunks are ordered; with a built-in metric the only errors are the parser's and UTF-8 errors |
| Sizers.Size | src/splitter.rs:16-18 | the built-in metrics never fail, and they measure empty text as 0 |
| Chars.CountsScalars | src/splitter/chars.rs:11-13 | the character metric counts one per scalar value, that is one per lead byte of the text's UTF-8 encoding, and never more than the encoding's byte length |
| Chars.CafeExample | src/splitter/chars.rs:37-43 | the five UTF-8 bytes of "café" decode to four characters, which measure 4 |
| Words.SplitWhitespace | src/splitter/words.rs:7-9 | every item `split_whitespace` yields is a non-empty run without whitespace |
| Words.CountIsWordStarts | src/sizer/words.rs:19-21 | the word count equals the number of positions where a non-whitespace character follows whitespace or the start |
| Words.CountOfJoin | src/splitter/words.rs:7-9 | the words of a concatenation are those of the parts, less one when a word spans the join |
| Words.WordsKeepText | src/splitter/words.rs:7-9 | the words, concatenated, are exactly the non-whitespace characters of the text in order |
| Words.CountZero | src/sizer/words.rs:19-21 | a text has no words exactly when every character is whitespace |
| Words.SplitUnwords | src/splitter/words.rs:7-9 | joining words with single spaces and splitting again gives the same words |
| Words.MagicExample | src/splitter/words.rs:26-32 | "I can feel the magic, can you?" measures 7: punctuation stays with its word |
| Words.HelloExample | src/sizer/words.rs:28-34 | "hello, world!" measures 2, and the empty text measures 0 |
| Utf8.DecodeEncode | src/splitter.rs:102 | strict decoding of an encoded text gives the text back |
| Utf8.EncodeDecode | src/splitter.rs:53 | strict decoding accepts only bytes that re-encode to themselves |
| Utf8.ScalarCount | src/splitter/chars.rs:12 | a decoded text has one character per non-continuation byte |
| Utf8.DecodeAppend | src/splitter.rs:102 | two well-formed byte ranges, concatenated, decode to the concatenation of their texts |
| Utf8.DecodeLossy | src/chunk.rs:31-32 | lossy decoding of well-formed bytes is strict decoding, and lossy decoding of ill-formed bytes contains U+FFFD |
| Chunks.Utf8Lossy | src/chunk.rs:30-33 | `utf8_lossy` reads exactly the bytes `[start_byte, end_byte)`: well-formed text comes back unchanged, ill-formed text is marked with U+FFFD |
| Chunks.HeaderRoundTrip | src/chunk.rs:17-26 | the header `[start_row..end_row]: size` reads back as the start row, end row and size it was printed from |
| Chunks.Display | src/chunk.rs:15-27 | the printed chunk is the header line, which contains no newline and reads back as the chunk's start row, end row and size, then a newline, then the trace |
| Chunks.JoinLinesAppend | src/splitter.rs:81 | joining two traces with "\n" is the same as joining their lines |

## Left out

- Parsing (`Parser::new`, `set_language`, `parse` at src/splitter.rs:41-44) belongs to the
  tree-sitter library. `Split` takes the parser as a function `parse` that returns a tree or a
  `ParseError`. The tree is assumed well formed: ranges inside the code, children in order,
  without overlap and inside their parent. Tree-sitter guarantees this.
- `format_node` (src/splitter.rs:107-116) is debug rendering with box-drawing characters and
  padding. A trace line keeps its data (kind, depth, rows, size). `Display` takes the renderer
  of a line as a parameter, so the trace text after the header is stated only in terms of it.
- The tokenizer-backed metrics (Hugging Face, tiktoken) are foreign models. They appear only as
  `Tokenizer(count)`, an arbitrary function that may fail.
- `Splitter::new`, which `with_char_counter` and the tests call, is not part of this model.
  `WithCharCounter` assumes it sets the default budget of 512. The language argument, and the
  failure to load it, are left out with the parser.
- src/splitter.rs declares `split(code, lang)`, and the tests in src/splitter/words.rs (lines
  39 and 50) call it that way. The doc example and test in src/splitter/chars.rs (lines 26
  and 50), the doc example in src/sizer/words.rs (line 13), the integration tests and the
  Python bindings call `split(code)` on a splitter built with a language. The model follows
  src/splitter.rs.
- TreeSplitter.Measure: the model's `Utf8Error` carries the measured byte range `[lo, hi)` of
  the code. Rust's `Utf8Error` instead records where the valid prefix ends and how long the
  bad sequence is, relative to the slice. Only the fact that decoding failed is modelled.
- TreeSplitter.SplitChildren: its own contract states only that the result is ordered, sound,
  inside the node, and fails when a child fails. What the descent computes is stated by lemmas
  about it. `ChildrenDescend` and `SplitNodeDescends` state which child's error is returned, that
  nothing is lost and that the first fitting boundary merges. `SiblingLeavesMerge` gives the
  exact result for two fitting children. Stating these facts in the recursive functions' own
  contracts puts `split_node` of every child inside the recursion's proof, which the verifier
  cannot finish.
- TreeSplitter.FoldMerges: a failing `joined_size` is stated to be the result, and a fitting
  one a merge, only at the first boundary. At later boundaries the tail may itself be a merge,
  so the statements are the ones `Fold` and `FoldJoins` make for every accumulator. Those cover
  each step of the recursion.
- The Python bindings and the integration tests are left out. Chunk counts for the fixture
  files, such as 5 chunks for the Markdown sample, depend on the real grammar.
- Integer widths: `usize` sizes and offsets are unbounded naturals. No size in the source
  comes near overflow.
