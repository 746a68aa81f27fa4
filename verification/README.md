# Chinese translator: chunker and translation pipeline

This project models the core of a small Chinese → English → Vietnamese
translator (`temp.py`). The translation itself is done by pretrained
sequence-to-sequence models. The repository's own logic is in two places:

- **The chunker** (`split_into_sentences`, module `Chunker` in `chunker.dfy`).
  It strips the input. It cuts the input right after every sentence-ending
  mark (`。！？!?.`) and drops the whitespace that directly follows the mark.
  It greedily packs the non-empty pieces into chunks of at most `max_chars`
  characters. Last, it cuts any chunk that is still too long into
  `max_chars`-sized slices. A character is one code point, as Python's `len`
  counts them.
- **The pipeline glue** (module `Pipeline` in `pipeline.dfy`).
  `generate_translation` translates the chunks one by one, in order, and joins
  the outputs with single spaces. `translate_zh_to_en` and `translate_en_to_vi`
  chunk with the 300-character bound and then translate. `translate_en_to_vi`
  refuses to run when the English→Vietnamese model did not load.
  `translate_zh_to_vi` composes the two directions.

A translation model is modelled as an opaque total function `string -> string`.
The English→Vietnamese model, which may fail to load at start-up, is an
`Option<string -> string>` passed in by the caller. `None` stands for the
failed load, which the source records in its global `PIVOT_AVAILABLE` flag.

The two loops of `split_into_sentences` are imperative methods proved against
specification functions. `PackSentences` is the packing loop (lines 43-55) and
`SliceOverlong` is the slicing loop (lines 57-64). `SplitIntoSentences` runs
the regular-expression split and then the two loops. `generate_translation` is
the method `GenerateTranslation`. The regular-expression split is the function
`Pieces`. `str.strip` is `Strip`, and both use Python's whitespace set
(`str.isspace`, which is also what `\s` matches). `Pieces` follows `re.split`
as it behaves from Python 3.7 on, where a pattern that can match the empty
string also splits there: `"a.b"` gives `["a.", "b"]` and `"a!?b"` gives
`["a!", "?", "b"]`. Before 3.7, empty matches did not split, and `"a.b"` would
stay one piece. The three `translate_*` functions are Dafny functions over the
specification functions `Chunks` and `Outputs`. The methods are proved equal to those functions.

Two consequences of the code are worth stating plainly:

- Only the whitespace right after a sentence-ending mark is dropped, plus
  whatever `strip` removes from the ends of the whole text. Whitespace before a
  mark or inside a sentence is kept.
- A chunk need not be a substring of the text. Packing joins pieces with
  nothing between them, so the whitespace dropped after a mark is gone from the
  chunk. `Chunker.SpaceAfterEndDropped` proves that `"Hi. Bye."` becomes the
  single chunk `"Hi.Bye."`. What the code keeps is stated by
  `Chunker.ChunksShape`: the chunks concatenate to the stripped text without
  the whitespace after sentence ends, and no character that is not whitespace
  is lost.

## Model

| member | source | states |
|---|---|---|
| `Chunker.TrimStart` | temp.py:42 | `lstrip`: the result is a suffix of the input; everything cut off is whitespace; the result does not start with whitespace |
| `Chunker.TrimEnd` | temp.py:42 | `rstrip`: the result is a prefix of the input; everything cut off is whitespace; the result does not end with whitespace |
| `Chunker.Strip` | temp.py:42 | `strip` gives the empty string exactly when the text is all whitespace; otherwise the result neither starts nor ends with whitespace |
| `Chunker.StripKeepsNonSpace` | temp.py:42 | stripping loses no character that is not whitespace |
| `Chunker.Pieces` | temp.py:42 | the split always returns at least one piece, and a non-empty text's first piece starts with the text's first character |
| `Chunker.PiecesShape` | temp.py:42 | the split cuts exactly at sentence ends: every piece but the last ends with a mark, no piece holds a mark anywhere else, and no piece after a cut starts with whitespace |
| `Chunker.PiecesConcat` | temp.py:42 | the pieces concatenate to the text with the whitespace after every sentence end removed (`Squeeze`, an independent character filter): nothing is lost, duplicated or reordered |
| `Chunker.PiecesWithoutEnds` | temp.py:42 | a text without sentence-ending marks is one piece, itself |
| `Chunker.SqueezeKeepsNonSpace` | temp.py:42 | removing whitespace after sentence ends keeps every other character, in order |
| `Chunker.SqueezeUnchanged` | temp.py:42 | a text with no whitespace right after a sentence end is unchanged by the removal |
| `Chunker.NonEmpty` | temp.py:45-47 | skipping empty pieces leaves only non-empty ones; `NonEmptySingle` and `NonEmptyAppend` pin it down as the filter |
| `Chunker.NonEmptySingle` | temp.py:45-47 | one piece is kept, whole, exactly when it is not empty |
| `Chunker.NonEmptyAppend` | temp.py:44-47 | skipping distributes over concatenation, so every non-empty piece is kept whole and in order and only empty ones are dropped |
| `Chunker.NonEmptyConcat` | temp.py:45-47 | skipping empty pieces does not change their concatenation |
| `Chunker.PackFrom` | temp.py:43-55 | the packing loop from a given buffer of pieces on, as a function; characterized by `PackIsGreedy` (through `PackFromGreedy`) and `GreedyPackingUnique` |
| `Chunker.Pack` | temp.py:43-55 | the packing loop from an empty buffer; `PackIsGreedy` shows it is a greedy packing and `GreedyPackingUnique` that it is the only one |
| `Chunker.PackIsGreedy` | temp.py:43-55 | the packing loop's groups cut the pieces into consecutive non-empty runs; a group of two or more pieces fits in `max_chars`, so an over-long chunk is a single piece; a chunk is closed only when the next piece would not fit (its length plus the next chunk's first piece exceeds `max_chars`) |
| `Chunker.GreedyPackingUnique` | temp.py:43-55 | there is only one greedy packing of a sequence of pieces, so these properties determine the loop's result |
| `Chunker.GreedyChunksNonEmpty` | temp.py:48-55 | a greedy packing of non-empty pieces has no empty chunk (`if current:` never appends an empty buffer) |
| `Chunker.SlicesFrom` | temp.py:63-64 | the slices `c[i:i+m]` for `i` in `range(start, len(c), m)`; characterized by `SlicesFromShape` |
| `Chunker.CutToFit` | temp.py:58-64 | one chunk kept if it fits, otherwise its slices; characterized by `CutToFitShape` |
| `Chunker.CutAll` | temp.py:57-64 | the fallback loop over all chunks, as a function; characterized by `CutAllShape`, and `SliceOverlong` is proved to compute it |
| `Chunker.SlicesFromShape` | temp.py:63-64 | the slices `c[i:i+m]` for `i` in `range(start, len(c), m)` are non-empty; all but the last are exactly `m` long and the last is at most `m`; together they spell `c[start:]` |
| `Chunker.CutToFitShape` | temp.py:58-64 | one chunk's treatment keeps its text, every slice fits, all but the last slice are exactly `max_chars` long, and a chunk that fits is kept as it is |
| `Chunker.CutAllShape` | temp.py:57-64 | the fallback loop keeps the concatenation of the chunks, and every output is non-empty and at most `max_chars` long |
| `Chunker.Chunks` | temp.py:36-65 | `split_into_sentences` as a function; characterized by `ChunksShape`, `ChunksEmptyIff`, `ChunksFit` and `ChunksFitUnchanged`, and `SplitIntoSentences` is proved to compute it |
| `Chunker.ChunksShape` | temp.py:36-65 | every returned chunk is non-empty and at most `max_chars` long; the chunks concatenate to the stripped text without the whitespace after sentence ends; no character that is not whitespace is lost |
| `Chunker.ChunksEmptyIff` | temp.py:42-55 | the result is empty exactly when the input is empty or all whitespace |
| `Chunker.ChunksFit` | temp.py:42-60 | when the stripped text, without the whitespace after sentence ends, is non-empty and fits in `max_chars`, it is the single chunk |
| `Chunker.ChunksFitUnchanged` | temp.py:42-60 | a non-empty stripped text that fits in `max_chars` and has no whitespace right after a sentence end is returned unchanged as the single chunk |
| `Chunker.TwoSentencesExample` | temp.py:36-65 | `"你好。今天天气怎么样？"` with `max_chars=300` gives that one chunk |
| `Chunker.SpaceAfterEndDropped` | temp.py:42-55 | `"Hi. Bye."` with `max_chars=300` gives the one chunk `"Hi.Bye."`: the space after the mark is gone |
| `Chunker.HiByeSqueezed` | temp.py:42 | removing the whitespace after sentence ends turns `"Hi. Bye."` into `"Hi.Bye."` |
| `Chunker.LongSentenceExample` | temp.py:36-65 | 310 copies of a character that is neither whitespace nor a mark, with `max_chars=300`, give the chunks `text[:300]` and `text[300:]` (lengths 300 and 10) |
| `Chunker.SplitIntoSentences` | temp.py:36-65 | the chunker returns `Chunks(text, max_chars)`; every chunk is non-empty and at most `max_chars` long; the chunks concatenate to the stripped text without the whitespace after sentence ends |
| `Chunker.PackSentences` | temp.py:43-55 | the buffer-and-list loop returns the chunk strings of the greedy packing `Pack` of the non-empty pieces |
| `Chunker.SliceOverlong` | temp.py:57-64 | the fallback loop returns every fitting chunk as it is and every over-long one as its slices, in order (`CutAll`) |
| `Pipeline.Join` | temp.py:78 | `" ".join` of the outputs; characterized by `JoinAppend`, `JoinFields`, `FieldsJoin` and `JoinMergesOutputs` |
| `Pipeline.JoinAppend` | temp.py:78 | joining two non-empty lists is joining each with one space between them |
| `Pipeline.JoinMergesOutputs` | temp.py:78 | the join can lose the boundaries between outputs: `["a b"]` and `["a", "b"]` join to the same string |
| `Pipeline.JoinFields` | temp.py:78 | splitting any string at single spaces and joining with `" "` gives the string back |
| `Pipeline.FieldsJoin` | temp.py:78 | when no output contains a space, splitting the joined string at spaces recovers the outputs, in order, none lost or merged; outputs that hold spaces cannot be recovered (`JoinMergesOutputs`) |
| `Pipeline.Outputs` | temp.py:68-77 | there is one output per chunk, and output `i` is the model applied to chunk `i` alone |
| `Pipeline.GenerateTranslation` | temp.py:67-78 | the loop returns the per-chunk outputs in chunk order joined by single spaces; no chunks give `""`; one chunk gives exactly the model's output for it |
| `Pipeline.Translate` | temp.py:82-83 | the chunk-and-generate body shared by `translate_zh_to_en` (lines 82-83) and `translate_en_to_vi` (lines 88-89); characterized by `ShortTextOneCall`, `TwoSentencesOneCall` and the `TranslateZhToEn` contract |
| `Pipeline.TranslateZhToEn` | temp.py:81-83 | empty or whitespace-only input translates to `""` |
| `Pipeline.TranslateEnToVi` | temp.py:85-89 | fails with `PivotUnavailable` exactly when the English→Vietnamese model did not load, whatever the text |
| `Pipeline.TranslateZhToVi` | temp.py:91-98 | fails exactly when the English→Vietnamese model did not load |
| `Pipeline.PivotComposition` | temp.py:85-98 | with the pivot model loaded, Chinese→Vietnamese is the English→Vietnamese translation of the Chinese→English translation; without it the result is the error, never a partial or empty string |
| `Pipeline.ShortTextOneCall` | temp.py:81-83 | a text whose stripped form, without whitespace after sentence ends, fits in 300 characters is translated by one model call on that form |
| `Pipeline.TwoSentencesOneCall` | temp.py:81-83 | the two-sentence greeting reaches the model whole, in one call |

## Left out

- Model and tokenizer loading, the CUDA device choice and the `try`/`except` that sets `PIVOT_AVAILABLE` (temp.py:13-33). These load models from an external hub. The loaded English→Vietnamese model is a parameter of type `Option` instead.
- Tokenisation, `model.generate` with `max_length`/`num_beams`, and decoding (temp.py:70-76). These are neural-network calls. They are inside the opaque model function.
- Runtime failures of a model. A model is a total function here. The source lets such an exception end the whole call, and that is not modelled.
- The interactive command-line loop (temp.py:101-117) and the Streamlit page in run.py. These are console and web I/O only.
- Chunker.SplitIntoSentences: requires `max_chars >= 1`. The source accepts any integer. With `0`, `range(0, len(c), 0)` raises for an over-long chunk. A negative value makes that `range` empty, so over-long chunks silently disappear. Neither case is modelled.
- Python strings can hold lone surrogate code points. Dafny `char` cannot, so such strings are not modelled.
- The translate functions are stated over the specification functions `Chunks` and `Outputs`, not over calls to the methods. The methods are proved to compute exactly those functions.
