# RAG dialogue assistant: text and selection core

This project models, in Dafny, the deterministic core of a retrieval-augmented
question-answering tool over transcribed phone dialogues. Four pieces are modelled:

- **Vector literal** (`pgvector_text`): non-finite entries become 0.0, then the
  vector is written as `[v0,v1,...]`. Module `PgVector`, file `pgvector.dfy`.
- **Context block** (`build_context`): one `[SOURCE id=… file=… similarity=…]` tagged
  segment per retrieved row, joined by `"\n\n---\n\n"`. Module `ContextAssembly`,
  file `context.dfy`.
- **Prompt assembly** (`generate_answer` up to the completion call): the fixed
  unavailable text when no Groq client exists, otherwise the request with its
  system instructions and its user turn. Module `Generation`, file `generation.dfy`.
- **Ingestion** (`main` of the loader): keep each `.txt` entry whose stripped
  text is not empty, insert `(filename, stripped text, embedding)`, and commit
  once. Module `Ingestion`, file `ingestion.dfy`.

Module `Text` (`text.dfy`) holds the Python string operations these rely on:
`join`, `strip`, `endswith` and `str(int)`. It also holds a reader,
`SplitOn`, that cuts a string at every occurrence of a character. The code never
splits anything; the reader is what the field structure of a vector literal is
stated against (the literal cuts back at its commas into one field per
element). `Wrappers` holds `Option`.

The number renderings `f"{x:.8f}"` and `f"{sim:.3f}"` are function parameters
(`fmt8`, `fmt3`), so nothing assumes a decimal algorithm. A vector element is a
`Float`: a finite real, NaN, +Inf or -Inf. The sentence encoder is the parameter
`encode`. The directory is a sequence of `(name, text)` entries. The table is a
class holding committed rows and the inserts of the open transaction.

Three facts about the code that the model keeps:
- An empty retrieval gives the empty context string. There is no distinct
  "no context" marker (`Context`).
- The separator is not escaped inside content, so the context block cannot
  always be split back into rows (`ContextAmbiguous`).
- The loader reports no inserted or skipped counts; it only commits.

## Model

| member | source | states |
|---|---|---|
| `PgVector.NanToNum` | src/app.py:27 | same length, every entry finite, finite entries kept, NaN/+Inf/-Inf replaced by 0.0 |
| `PgVector.PgvectorText` | src/app.py:25-28 | output starts with `[` and ends with `]`; the empty vector gives `[]` |
| `PgVector.DecodeRendering` | src/app.py:28 | when each rendering is a fixed-point numeral, the literal splits back into exactly one field per element, in element order, each the 8-digit rendering of the sanitised element |
| `PgVector.Fields` | src/app.py:27-28 | one field per element; field i is `fmt8` of element i when finite, and `fmt8(0.0)` when NaN or infinite |
| `PgVector.NonFiniteRendersAsZero` | src/app.py:27-28 | replacing a non-finite element by 0.0 leaves the whole literal unchanged |
| `PgVector.RenderingSanitised` | src/app.py:27-28 | sanitising before the call changes nothing, because rendering already sanitises |
| `PgVector.NanToNumIdempotent` | src/app.py:27 | sanitising twice is sanitising once |
| `PgVector.FixedPointHasNoComma` | src/app.py:28 | a fixed-point numeral is non-empty and holds no comma, so it cannot break the field structure |
| `PgVector.ValuesRoundTrip` | src/app.py:25-28 | if reading a rendering gives the value rounded to 8 decimals, decoding the literal gives one value per element, in order, each the rounded sanitised element (NaN/Inf read back as rounded 0.0) |
| `Text.Join` | src/app.py:81 | the length of a join is the parts' total length plus one separator between each neighbouring pair |
| `Text.JoinSnoc` | src/app.py:81 | one more part appends the separator and that part |
| `Text.JoinPartAt` | src/app.py:81 | each part sits verbatim at its offset, and the last part ends the string |
| `Text.JoinSepAt` | src/app.py:81 | exactly one separator stands between each part and the next |
| `Text.SplitOn` | src/app.py:28 | the reader the literal's field structure is stated against (the code itself never splits): it yields at least one piece and no piece holds the separator |
| `Text.SplitJoin` | src/app.py:28 | reading back a `","`-join of comma-free fields, as the literal is built, gives exactly those fields |
| `Text.JoinSplit` | src/app.py:28 | the reader loses nothing: joining its pieces restores the string |
| `Text.FirstIndex` | src/app.py:28 | the reader's cut point holds the character and no earlier position does |
| `Text.Strip` | src/ingest.py:37 | the result is the text with a whitespace-only prefix and a whitespace-only suffix removed; it is empty exactly when the text is all whitespace, and otherwise starts and ends with non-whitespace |
| `Text.EndsWith` | src/ingest.py:32 | holds exactly when the suffix is no longer than the string and matches its last characters one by one |
| `Text.SkipSpace` | src/ingest.py:37 | everything skipped at the front is whitespace and the scan stops at non-whitespace |
| `Text.SkipSpaceBack` | src/ingest.py:37 | everything dropped at the end is whitespace and the kept part ends with non-whitespace |
| `Text.StripTrimmed` | src/ingest.py:37 | a text with non-whitespace at both ends is unchanged by strip |
| `Text.StripIdempotent` | src/ingest.py:37 | stripping twice is stripping once, so stored content is already stripped |
| `Text.NatToString` | src/app.py:80 | the decimal rendering of an id is non-empty, all digits, with no leading zero |
| `Text.NatToStringDenotes` | src/app.py:80 | the digits of a natural number's rendering, read in base 10, give the number back |
| `Text.IntToString` | src/app.py:80 | a non-negative id renders as digits; a negative one as a minus sign then digits |
| `Text.IntToStringDenotes` | src/app.py:80 | the rendering of an id denotes it: its digits read in base 10 give the id, behind a minus sign when it is negative |
| `ContextAssembly.Header` | src/app.py:80 | the provenance tag opens with `[` and ends with `]` and a newline |
| `ContextAssembly.SegmentLayout` | src/app.py:80 | a segment is the row's header, then the row's content verbatim and in full |
| `ContextAssembly.Context` | src/app.py:78-81 | the block is the empty string exactly when there are no rows |
| `ContextAssembly.BuildContext` | src/app.py:76-81 | the loop that collects one segment per row, then joins them, returns exactly the context block of the rows |
| `ContextAssembly.ContextAppend` | src/app.py:79-81 | a further row appends one separator and that row's segment |
| `ContextAssembly.SegmentPlacement` | src/app.py:80-81 | segment i starts at its offset, the first at 0, with the row's `[SOURCE id= file= similarity=]` header followed by the row's content unchanged and untruncated |
| `ContextAssembly.SegmentBoundary` | src/app.py:81 | exactly one separator stands between consecutive segments, and the last segment ends the block, so n rows give n-1 separators between segments |
| `ContextAssembly.ForgedRow` | src/app.py:80-81 | one row whose content continues with the separator and a second row's segment gives the same block as the two rows |
| `ContextAssembly.ContextAmbiguous` | src/app.py:80-81 | two different row lists can give the same block, because content is not escaped |
| `Generation.LoadGroqClient` | src/app.py:44-47 | a client exists exactly when the key is set and non-empty, and it holds that key |
| `Generation.GenerateAnswer` | src/app.py:83-111 | no client gives the fixed "GROQ_API_KEY manquante" text and no request; a client gives a request for the model at temperature 0.2 with the system instructions then the user turn |
| `Generation.MissingKeyIgnoresInputs` | src/app.py:84-86 | without a client the reply is the same whatever the question, context and model |
| `Generation.UserMessage` | src/app.py:94-103 | the user turn is as long as the two headings, the context, the question and the directions together |
| `Generation.UserMessageLayout` | src/app.py:94-103 | the user turn is `CONTEXTE:\n`, the context verbatim, `\n\nQUESTION:\n`, the question verbatim, then the fixed directions |
| `Generation.UserMessageDetermines` | src/app.py:94-103 | for a known context length, the user turn determines both the context and the question |
| `Ingestion.Qualifies` | src/ingest.py:32-40 | an entry is loaded exactly when its name ends in `.txt` and its text is not all whitespace |
| `Ingestion.ToRecord` | src/ingest.py:37-50 | the record keeps the entry's name; its content is the entry's text with a whitespace-only prefix and a whitespace-only suffix removed, with no whitespace left at either end (empty only for an all-whitespace text); its embedding is that of the content |
| `Ingestion.Selected` | src/ingest.py:31-51 | one run inserts no more records than there are entries, each with a `.txt` name and non-empty content |
| `Ingestion.Table.constructor` | src/ingest.py:21-28 | a fresh connection sees the rows committed so far and an empty transaction, with no commit made yet |
| `Ingestion.Table.Insert` | src/ingest.py:45-51 | an insert adds the record to the open transaction only; committed rows are untouched |
| `Ingestion.Table.Commit` | src/ingest.py:53 | a commit appends the transaction's inserts to the committed rows, empties the transaction and counts one commit |
| `Ingestion.Ingest` | src/ingest.py:31-53 | the committed rows become the old rows followed by the selected records of the listing; exactly one commit is made |
| `Ingestion.IngestTwice` | src/ingest.py:31-53 | a second run over the same listing adds every qualifying record again (no de-duplication), leaves the transaction empty and makes exactly two commits |
| `Ingestion.SelectedAppend` | src/ingest.py:31 | selection follows listing order: selecting from `a + b` selects from `a`, then from `b` |
| `Ingestion.SelectedMembers` | src/ingest.py:32-51 | a record is inserted exactly when a `.txt` entry with non-blank text yields it, with the entry's name and stripped text |
| `Ingestion.SelectedRecordsWellFormed` | src/ingest.py:32-50 | every inserted record has a `.txt` name, non-empty and already stripped content, and the embedding of that stripped content |
| `Ingestion.QualifyingPositions` | src/ingest.py:31-40 | the positions of the qualifying entries all lie inside the listing |
| `Ingestion.InsertsMatchQualifying` | src/ingest.py:31-51 | a run inserts exactly as many records as there are qualifying entries |
| `Ingestion.SelectedCount` | src/ingest.py:31-51 | a run inserts exactly one record per qualifying entry, so at most one per entry, and as many as entries exactly when every entry qualifies |
| `Ingestion.SkippedEntry` | src/ingest.py:32-40 | an entry that is not `.txt` or is blank after strip adds nothing |

## Left out

- `retrieve_top_k` (src/app.py:49-74): ranking, the `IS NOT NULL` filter, `LIMIT` and the cosine distance are computed by Postgres/pgvector and are not part of this model.
- Embedding generation with the sentence encoder (src/app.py:40-41, 51; src/ingest.py:19, 42-43): a parameter `encode`. The query side normalises embeddings and the loader does not; nothing here depends on it.
- The Groq completion call and its response (src/app.py:105-113): the model stops at the request it would send.
- Database connections, cursors, SQL text and closing the connection (src/app.py:30-37; src/ingest.py:22-28, 55): the table is an in-memory class.
- Environment and dotenv loading, `st.cache_resource` caching (src/app.py:12-23, 39-43; src/ingest.py:8-19).
- The Streamlit page and session history (src/app.py:118-158), including the 1200-character display truncation and the skip of generation on an empty retrieval.
- Decimal rendering of floats (`:.8f`, `:.3f`): kept as the parameters `fmt8` and `fmt3`.
- PgVector.PgvectorText: the float32 cast of src/app.py:26 is not modelled. Elements are taken as float32 values already, so the rounding of wider input and a large value overflowing to infinity are not captured. Signed zero is not distinguished either.
- Ingestion.Ingest: reading files is not modelled (src/ingest.py:35-37). An entry's text is given already decoded from UTF-8 with bad bytes dropped. A directory whose name ends in `.txt`, an unreadable file and an error in the middle of the loop are not modelled. In the source such an error stops the run before the commit.
- Ingestion.Ingest: `os.listdir` gives no order guarantee; the model takes the listing order as given.
- ContextAssembly.Header: a row id is taken to be an integer and rendered as `str(int)` renders it. The `dialogues` table's schema is not part of this model, so an id of another type is not captured.
