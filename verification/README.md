# TextGraphAI text normalisation, modelled in Dafny

TextGraphAI turns documents into a knowledge graph. Two small pure pieces
sit between reading a document and sending it to a language model, and
between the model's answer and the graph store. This project models both
and proves their properties.

1. **Text preparation.**
   - `clean_text` does three steps in order:
     - collapse every run of whitespace to one space;
     - delete non-greedy `[...]` spans;
     - strip the ends.
   - `chunk_text` splits the cleaned text into words. It emits consecutive groups of at most `chunk_size` words (default 600), each joined with single spaces.
   - The two functions appear twice, identically:
     - `preprocess.py:5-14`;
     - `textgraphai/utils/enhanced_preprocess.py:11-20`.
   - One model covers both copies. The table below cites each copy for the members that model it.
2. **Graph-record normalisation** (`textgraphai/core.py`):
   - Extracted properties get camelCase keys (`format_property_key`).
   - Property lists fold into a map where the last write wins (`props_to_dict`).
   - Nodes get a title-cased id, a capitalised type and a `name` property (`map_to_base_node`).
   - Relationships get both endpoints normalised the same way, which fails when an endpoint carries properties (`map_to_base_relationship`).

## Modules

| module | file | models |
|---|---|---|
| `Wrappers` | wrappers.dfy | `Option` and `Result` |
| `Casing` | casing.dfy | the Python string methods `str.lower`, `str.capitalize` and `str.title`, with independent characterisations (`IsCapitalized`, `IsTitled`) |
| `Words` | words.dfy | the Python whitespace set (`str.isspace`), plus `str.split()`, `' '.join` and `str.strip()` |
| `Preprocess` | preprocess.dfy | the two regular-expression substitutions and `clean_text` |
| `Chunking` | chunking.dfy | `chunk_text`, as a function and as a loop over the word list |
| `GraphCore` | core.dfy | the `Property`/`Node`/`Relationship` records and the four normalisation functions |

### Python semantics

- **Whitespace** is the full set that Python's `str.isspace` accepts:
  - space, tab through carriage return;
  - U+001C to U+001F, U+0085, U+00A0, U+1680;
  - U+2000 to U+200A, U+2028, U+2029, U+202F, U+205F, U+3000.

  `\s` in a `str` pattern and `str.split()` use the same set.
- **Case mapping** covers ASCII letters only.
  - Every other character counts as caseless.
  - `title` upper-cases a letter exactly when the character before it is not a letter. Otherwise it lower-cases the letter.
- **`\[.*?\]`** has no DOTALL flag, so `.` does not match a newline. A `[` whose closing `]` lies beyond a newline is kept. After `\s+` has run no newline remains, so inside `clean_text` every `[ ... ]` pair is removed.
- **`range(0, n, chunk_size)`**:
  - A step of 0 raises `ValueError`, modelled as `Failure(ZeroStep)`.
  - A negative step yields nothing, modelled as `Success([])`.
- **`type`** is a reserved word in Dafny, so the record field is called `kind`.

### Behaviour of the code that is easy to miss

- **Node ids are not trimmed.** `map_to_base_node` only calls `title()`, so `" John Doe "` keeps its spaces (`GraphCore.MapToBaseNodeExamples`).
- **`capitalize` lower-cases every later letter of the type**, so `"PERSON"` becomes `"Person"`.
- **No deduplication or merging in the modelled code.** Apart from the graph store's merge-on-key writes (`build_knowledge_graph`, left out below), no code deduplicates nodes, unions properties across candidates or drops relationships with unknown endpoints.
- **Relationship endpoints keep the graph library's node record.** `Relationship` redeclares only its own `properties` as a list of `Property`. Its `source` and `target` are therefore the library's node record, whose properties are a map. `map_to_base_node` hands a non-empty map to `props_to_dict`, whose loop then reads `.key` from a string key and raises `AttributeError`. The model returns `Failure(AttributeError)` in that case (`GraphCore.MapEndpoint`, `GraphCore.MapToBaseRelationship`).

## Model

| member | source | states |
|---|---|---|
| Casing.Capitalize | textgraphai/core.py:47 | `type.capitalize()` differs from its input only in letter case, and is capitalised: its first character is not lower case and no later character is upper case |
| Casing.Title | textgraphai/core.py:46 | `id.title()` differs from its input only in letter case, and each of its letters is upper case exactly when the character before it is not a letter |
| Casing.CharCase | textgraphai/core.py:32 | `str.lower` on one character never yields an upper-case letter, keeps whether the character is a letter, and two characters with the same lower-case form have the same upper-case form |
| Casing.LowerIsLowered | textgraphai/core.py:32 | `str.lower` leaves no upper-case letter, so lower-casing again changes nothing |
| Casing.LowerAppend | textgraphai/core.py:32-34 | lower-casing distributes over concatenation |
| Casing.TitledUnique | textgraphai/core.py:46-47 | the title-case characterisation determines the string: two title-cased strings that agree up to case are equal |
| Casing.CapitalizedUnique | textgraphai/core.py:47 | two capitalised strings that agree up to case are equal |
| Casing.TitleSameKey | textgraphai/core.py:46-47 | two ids title-case to the same string exactly when they differ only in letter case |
| Casing.TitleIdempotent | textgraphai/core.py:46-47 | title-casing an already title-cased id changes nothing |
| Casing.CapitalizeSameKey | textgraphai/core.py:47 | two types capitalise to the same string exactly when they differ only in letter case |
| Casing.CapitalizeIdempotent | textgraphai/core.py:47 | capitalising an already capitalised type changes nothing |
| Words.Split | preprocess.py:12 | `text.split()` yields only non-empty whitespace-free words, and yields none exactly when the text is all whitespace |
| Words.SplitJoin | preprocess.py:12-14 | splitting words joined by `' '.join` gives the same words back |
| Words.JoinSingleSpaced | preprocess.py:14 | words joined by `' '.join` have no leading, trailing or doubled space and no whitespace other than a plain space, and start with the first word's first character |
| Words.SingleSpacedJoin | preprocess.py:12-14 | text that is single-spaced with nothing at either end is its own words joined by `' '.join`, the converse of `Words.SplitJoin` |
| Words.Strip | preprocess.py:8 | `strip()` leaves no whitespace at either end and removes only whitespace, and only from the two ends |
| Words.SplitStrip | preprocess.py:8 | stripping never changes the words of a text |
| Preprocess.CollapseSpace | preprocess.py:6 | after `\s+` becomes one space, only plain spaces remain, never two in a row, every other character comes from the input, and each end is a space exactly when the input's end is whitespace (otherwise the same character) |
| Preprocess.CollapseSpaceWords | preprocess.py:6 | collapsing whitespace never changes the words of a text |
| Preprocess.CollapseFixed | preprocess.py:6 | text whose only whitespace is single plain spaces is left unchanged by the collapse |
| Preprocess.CollapseIdempotent | textgraphai/utils/enhanced_preprocess.py:12 | collapsing whitespace a second time changes nothing |
| Preprocess.StripBrackets | preprocess.py:7 | removing the `[...]` spans never lengthens the text or adds a character; text without `[` or without `]` is unchanged; on text without a newline no `[` is followed later by `]` |
| Preprocess.StripBracketsPrefix | preprocess.py:7 | text without `[` in front of the rest is copied unchanged, and the removal continues on the rest |
| Preprocess.CloseIndexAt | preprocess.py:7 | the lazy `.*?` after `[` stops at the first `]` when no newline comes before it |
| Preprocess.StripBracketsSpan | textgraphai/utils/enhanced_preprocess.py:13 | `[`, then text with no `]` or newline, then `]` is deleted as a whole, and what follows is processed on its own |
| Preprocess.StripBracketsUnclosed | preprocess.py:7 | a `[` with no `]` before the next newline, or with none at all, is kept, and the removal continues right after it |
| Preprocess.CleanText | preprocess.py:5-9 | cleaned text has no whitespace at either end, no whitespace but plain spaces, and no `[` followed later by `]`; all-whitespace input gives the empty string; on text without `[` the result is exactly the words of the input, in order, joined by single spaces |
| Preprocess.CollapseAppend | preprocess.py:6 | collapsing two pieces separately gives the same as collapsing them together, unless a whitespace run straddles the join |
| Preprocess.CleanTextDropsSpan | textgraphai/utils/enhanced_preprocess.py:11-15 | a `[...]` span, whatever it contains, is cleaned away as if it had never been there, provided the text before it has no `[` and it does not separate two whitespace runs |
| Preprocess.CleanTextNotIdempotent | preprocess.py:6-8 | whitespace is collapsed before brackets are removed, so `"a [x] b"` cleans to `"a  b"` (double space) and cleaning that again gives `"a b"`. This holds for any characters in place of a, x and b that are neither whitespace nor brackets |
| Preprocess.BracketAcrossLines | textgraphai/utils/enhanced_preprocess.py:12-13 | on its own the bracket pattern keeps a span such as `"[a\nb]"` that crosses a newline. Inside `clean_text` the newline has already become a space, so the whole span is removed |
| Chunking.ChunkWords | preprocess.py:13-14 | grouping a word list gives groups of 1 to `chunk_size` words, all full except the last, whose concatenation is the list |
| Chunking.ChunkWordsCount | preprocess.py:12-13 | the number of groups is the word count divided by `chunk_size`, rounded up |
| Chunking.ChunkText | preprocess.py:11-14 | `chunk_text` fails exactly when `chunk_size` is 0; a negative size yields no chunks; a positive size yields ceil(words / size) chunks |
| Chunking.ChunkTextWords | textgraphai/utils/enhanced_preprocess.py:18-20 | splitting every chunk and concatenating the results in order reproduces `text.split()` exactly |
| Chunking.ChunkTextShape | preprocess.py:13-14 | every chunk has 1 to `chunk_size` words, every chunk but the last has exactly `chunk_size`, and each is single-spaced with no leading or trailing space |
| Chunking.ChunkTextLoop | textgraphai/utils/enhanced_preprocess.py:17-20 | the generator run to completion produces the same outcome as `Chunking.ChunkText`, including the failure for size 0 |
| Chunking.JoinGroupsLoop | preprocess.py:13-14 | the loop over `range(0, len(words), chunk_size)`, joining each slice, yields exactly the joined groups of `Chunking.ChunkWords` |
| Chunking.ChunkAfterClean | preprocess.py:20-21 | on text without `[`, chunking the cleaned text gives the same chunks as chunking the raw text |
| Chunking.BlankTextNoChunks | textgraphai/utils/enhanced_preprocess.py:18-19 | text with no words gives no chunks, not an error, for every positive size |
| Chunking.DefaultSizeSingleChunk | textgraphai/utils/enhanced_preprocess.py:17-20 | with the default size of 600, text of 1 to 600 words becomes one chunk: its words joined by single spaces |
| Chunking.ChunkTextExample | preprocess.py:12-14 | `"a  b\tc"` in chunks of 2 gives `["a b", "c"]` |
| GraphCore.FormatPropertyKey | textgraphai/core.py:28-34 | a key with no words comes back unchanged. Otherwise the result: contains no whitespace; starts with the first word lower-cased; continues with each later word capitalised, in order; agrees with the words up to case |
| GraphCore.FormatTwoWords | textgraphai/core.py:32-34 | a key of two words `a b` becomes `a` lower-cased followed by `b` capitalised |
| GraphCore.BirthYear | textgraphai/core.py:28-34 | `"birth year"` becomes `"birthYear"` |
| GraphCore.FormatSingleWord | textgraphai/core.py:32-34 | a single-word key is lower-cased completely |
| GraphCore.FormatNotIdempotent | textgraphai/core.py:32-34 | formatting is not idempotent: the camelCase key from two words (the second starting with a letter) is one word, which a second pass lower-cases completely, so it changes again |
| GraphCore.StoreAll | textgraphai/core.py:40-41 | storing entries in order gives a map whose keys are the entries' keys, each holding the value of the last entry with that key |
| GraphCore.PropsToDict | textgraphai/core.py:36-42 | a missing or empty list gives the empty map. Otherwise the keys are exactly the formatted keys, and each key holds the value of the last property that formats to it |
| GraphCore.LaterPropertyWins | textgraphai/core.py:40-41 | of two properties whose keys format alike, the later one's value is kept |
| GraphCore.CaseVariantKeys | textgraphai/core.py:40-41 | two one-word keys differing only in case (`"age"`, `"Age"`) give a single lower-cased entry holding the later value |
| GraphCore.MapToBaseNode | textgraphai/core.py:44-47 | the id is the title-cased id and the type is the capitalised type, each characterised independently; the keys are the formatted keys plus `name`; `name` holds the new id, overriding any extracted `name`; every other key keeps its last value |
| GraphCore.SameNodeId | textgraphai/core.py:46-47 | two nodes get the same id exactly when their ids differ only in letter case |
| GraphCore.NodeIdStable | textgraphai/core.py:46-47 | normalising an already normalised id or type changes nothing |
| GraphCore.MapToBaseNodeExamples | textgraphai/core.py:45-47 | `"john doe"` and `"John Doe"` both become `"John Doe"`; `" John Doe "` keeps its spaces; an extracted `name` property is overridden |
| GraphCore.CapitalizeExample | textgraphai/core.py:47 | the type `"PERSON"` becomes `"Person"` |
| GraphCore.MapEndpoint | textgraphai/core.py:41-47 | an endpoint with a non-empty property map fails with `AttributeError`; otherwise its id is title-cased, its type capitalised, and its only property is `name` holding the new id |
| GraphCore.MapToBaseRelationship | textgraphai/core.py:49-53 | the mapping fails exactly when either endpoint carries properties; otherwise both endpoints get the title-cased id, the capitalised type and only the `name` property, the type passes through unchanged, and the properties are the folded property list |
| GraphCore.MapToBaseRelationshipExample | textgraphai/core.py:49-53 | a relationship from `"alice"` to `"acme corp"` gets the endpoints `"Alice"` and `"Acme Corp"` and keeps its type `works_at`; giving the source endpoint a property makes it fail with `AttributeError` |

## Left out

- **Language-model calls and prompt text** are foreign calls whose content is not checkable behaviour. This covers:
  - `get_extraction_chain`, `extract_relationships`, `annotate_text` and `generate_response`;
  - the `KnowledgeGraph` container they fill.
- **`extract_entities`** is a call into the spaCy NLP library.
- **Graph-store writes and queries** are thin wrappers over Neo4j:
  - `extract_and_store_graph` and `build_knowledge_graph`;
  - the Cypher retrieval queries.
- **graphrag pipelines, asynchronous search and the Celery job queue** are library orchestration and concurrency.
- **File and directory I/O** is input and output, not logic:
  - `preprocess_file`, `preprocess_directory` and `load_preprocessed_data`;
  - the chunk-file naming scheme and JSON reading and writing.
- **Web routes and UI, the command-line entry points, transcript scraping and visualisation** are not part of this model.
- **Case mapping of non-ASCII letters** (Python maps them through Unicode tables) is not modelled. All such characters are treated as caseless.
- **`chunk_text` is a generator.** Its lazy evaluation is not modelled: the model returns the whole list of chunks it would yield.
- GraphCore.MapToBaseRelationship: an endpoint's property map is modelled with string values. The library allows any value, but only whether the map is empty affects the result.
- **Ids are strings only.** The graph library also accepts integer ids, on which `title()` would raise. The model takes string ids only.
