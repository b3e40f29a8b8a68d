# girogi-ai core, modelled in Dafny

girogi-ai ("끼록이") is a chatbot over the archive of the 기록과사회 newsletter.
It has two parts:

- **Ingestion script (`init_store.py`).** It turns the `data/*.md` articles into
  an article metadata map (`article_metadata.json`). It reuses or creates a
  remote file-search store named `girogi-ai-archive`. It uploads the articles
  not uploaded before, and records their names in a tracker
  (`.uploaded_files.json`).
- **Chat app (`app.py`).** It sends the recent conversation plus the user's
  query to the grounded-generation service. It turns the reply into an answer
  and a short, deduplicated list of citations. It maps each citation title
  back to an article record.

This project models that bookkeeping. The remote service, the YAML decoder
and the file system are oracles, passed in as values and functions.

Modules:

| file | module | models |
|---|---|---|
| `common.dfy` | `Common` | `Option`, substring occurrence, prefix `Take` (Python's `s[:n]`) |
| `records.dfy` | `Records` | decoded YAML/JSON values, Python truthiness, the article `Record` |
| `frontmatter.dfy` | `Frontmatter` | `parse_frontmatter`: the `^---\s*\n(.*?)\n---` header match, then the decoder |
| `metadata.dfy` | `Metadata` | `generate_metadata`: the additive merge and the record defaults |
| `store_sync.dfy` | `StoreSync` | `list_stores`, `create_store`, `upload_file`, `save_config`, and `main` of the script |
| `grounded_answer.dfy` | `GroundedAnswer` | `search_and_answer`: the request context, the answer, the citations, the error results |
| `chat_session.dfy` | `ChatSession` | `needs_response` and the answering step of the app's `main` |
| `citation_resolver.dfy` | `CitationResolver` | `get_article_info` |

Each loop of the source is a `method` with a `for` loop and its invariants.
Its `ensures` ties the result to a specification function, for example
`Metadata.GenerateMetadata` to `Metadata.Merge` and `GroundedAnswer.CollectCitations`
to `GroundedAnswer.Collected`. Lemmas then prove the source's promises about
those functions. One script run is the function `StoreSync.Run` of an
environment `StoreSync.Env`. The environment holds the loaded snapshots
(metadata map, tracker set, folder listing), the API key, and the oracle's
replies. The result is a `StoreSync.Report`: what was saved, which uploads
were sent, the counters, and where the run stopped.

`get_article_info` derives its key with `filename.replace('.md', '')`. That
removes EVERY `.md` in the title, not only a trailing extension. The model
follows this code (`CitationResolver.RemoveMd`). The comment above it
(app.py:222, "remove the .md extension") speaks of stripping the extension.
The two agree whenever the stem contains no `.md`
(`CitationResolver.ResolvesIngestedDocument`).

`parse_frontmatter` as written returns a decoded header that is true in
Python but not a mapping, and `generate_metadata` then fails on it (see
"## Findings"). The members marked "corrected" model the intended
behaviour: such a header counts as `{}`. `Metadata.MergeAsWritten` models
the code as written.

## Model

| member | source | states |
|---|---|---|
| Frontmatter.SpaceRunEnd | init_store.py:68 | the greedy `\s*` after the opening `---` stops at the first character outside Python's whitespace set, having consumed only whitespace |
| Frontmatter.FindClosing | init_store.py:68 | the lazy group ends at the FIRST `\n---` at or after the group start; `None` exactly when there is none |
| Frontmatter.HeaderBlock | init_store.py:68 | content not starting with `---` has no header block (`re.match` anchors at the start) |
| Frontmatter.HeaderBlockSound | init_store.py:68-70 | a captured group is framed as `---`, whitespace ending in a newline, the group, `\n---`; the group never contains `\n---`; its opening newline is the LAST one any framing could use (the greedy `\s*`) |
| Frontmatter.HeaderBlockComplete | init_store.py:68-69 | every content of that framed shape has a header block (the regex matches) |
| Frontmatter.ParsedAsWritten | init_store.py:61-75 | as written: when the header decodes to a value true in Python, that value is returned as is (a non-mapping included); in every other case (unreadable, no header, decoder failure, false value) `{}` |
| Frontmatter.ParseFrontmatter | init_store.py:61-75 | corrected (see Findings): `{}` when the file is unreadable or has no header; a header decoding to a mapping yields exactly that mapping, and a non-empty result always came from the decoder; a header decoding to a non-mapping yields `{}`; never raises |
| Metadata.NewRecordDefaults | init_store.py:115-124 | title = header `title` else the key; url = header `source` else `""`; an author list becomes its first element, or `기록과 사회` when empty or absent; any other author is kept |
| Metadata.NormalizeAuthorResolves | init_store.py:116-118 | a string or list-of-strings author normalises to one string, and normalising twice changes nothing |
| Metadata.Merge | init_store.py:105-125 | corrected (see Findings): the loop over the documents as a fold; the loaded keys are kept |
| Metadata.MergeKeepsExisting | init_store.py:105-111 | every loaded key survives the merge with its record unchanged |
| Metadata.MergeKeys | init_store.py:105-125 | keys after the merge = loaded keys ∪ stems of the `.md` files |
| Metadata.MergeAddsFirstDocument | init_store.py:105-124 | an added key comes from the first document with that stem, and its record is the one derived from that document's header |
| Metadata.MergeNoop | init_store.py:109-111 | when every stem is already a key the merge returns the loaded map |
| Metadata.MergeIdempotent | init_store.py:89-128 | merging again over the same folder, starting from the merge's own output, gives an identical map |
| Metadata.MergeSize | init_store.py:101-125 | the number of records added is the number of stems not already keys |
| Metadata.GenerateMetadata | init_store.py:89-128 | corrected (see Findings): a missing data folder returns the loaded map unchanged with no new records; otherwise the loop computes the merge, and `new_count` is the growth of the map |
| Metadata.MergeAsWritten | init_store.py:105-125 | as written: a run that does not abort keeps the loaded keys; an abort happens only when some document's header decodes to a truthy non-mapping |
| Metadata.MergeAsWrittenAgrees | init_store.py:105-125 | whenever the merge as written does not raise, it equals the corrected merge |
| Metadata.ScalarHeaderAbortsMerge | init_store.py:72 | a document whose header is the YAML scalar `hello` makes the merge as written raise, while the corrected merge records it with defaults |
| StoreSync.ListStores | init_store.py:138-146 | a listing that does not answer 200 gives no stores; one that does gives its `fileSearchStores` list, or none when the field is missing |
| StoreSync.StoreMap | init_store.py:237 | the comprehension maps the last listed entry's display name to its id |
| StoreSync.StoreMapLastWins | init_store.py:237 | every listed display name is a key; each key maps to the id of the LAST store listed with that name |
| StoreSync.NewFiles | init_store.py:261 | a file is in the delta exactly when it is in the folder and its name is not tracked |
| StoreSync.NewFilesOrder | init_store.py:261 | the delta keeps enumeration order (it distributes over concatenation of listings) |
| StoreSync.NewFilesAllTracked | init_store.py:261-265 | once every name is tracked the delta is empty |
| StoreSync.UploadSucceeded | init_store.py:188-191 | an upload succeeds exactly when it answered 200 or 202; an exception is a failure |
| StoreSync.UploadDisplayName | init_store.py:177-179 | the display name sent is exactly the first min(100, length) characters of the stem, the stem itself when it fits |
| StoreSync.SucceededMembers | init_store.py:275-285 | a file counts as uploaded exactly when it is at most 10 MiB and its upload answered 200 or 202 (an exception is a failure) |
| StoreSync.TallyBounds | init_store.py:270-288 | successes ≤ attempts ≤ files, and one request is sent per attempt |
| StoreSync.OversizedNeverTracked | init_store.py:275-277 | a file over 10 MiB is never added to the tracked names |
| StoreSync.UploadNewFiles | init_store.py:270-288 | the loop's final set = initial set ∪ names of successful uploads; uploaded + failed = attempts; uploaded + failed + skipped = delta size; one display name sent per attempt, in order |
| StoreSync.Run | init_store.py:210-294 | corrected (see Findings): a run saves the merged metadata whatever happens later; it stops at the key check exactly when the key is missing; it has no store id exactly when it stopped at the key check or at a failed creation |
| StoreSync.Sync | init_store.py:210-294 | corrected (see Findings): `main` computes exactly the run `Run(env)` |
| StoreSync.RunKeepsMetadata | init_store.py:216-221 | the saved metadata is the merge: it keeps every loaded record, a non-empty merge is always saved, and nothing is saved only when nothing was loaded or found |
| StoreSync.RunSelectsStore | init_store.py:233-248 | a listed store with the configured name is reused (the last one listed) and no config is written; a written config belongs to a newly created store, and no listed store had the name |
| StoreSync.RunCreatesStore | init_store.py:244-248 | with no listed store of that name and a successful creation, the run uses the new store's id and writes its configuration |
| StoreSync.RunCreationFails | init_store.py:158-161 | with no listed store of that name and a failed creation, the run stops with that status: no store, no configuration, no uploads |
| StoreSync.RunReachesUploads | init_store.py:253-294 | a run with a key, a store, the data folder and a non-empty delta reaches the upload loop, sends one request per attempted document and saves the tracker |
| StoreSync.RunTracksUploads | init_store.py:253-294 | the tracker is saved, once, exactly when the run finishes uploading a non-empty delta; it is the loaded set plus the successful names, so it only grows; the counters add up to the delta size |
| StoreSync.FinishedRunHadStore | init_store.py:224-248 | a run that reaches the uploads had an API key and a reused or created store |
| StoreSync.EmptyDeltaStops | init_store.py:263-265 | an empty delta stops the run before any upload and without saving the tracker |
| StoreSync.SecondRunUploadsNothing | init_store.py:210-294 | after a run whose uploads all succeeded, a second run over the state it left (its metadata, its tracker, and the store it created now listed) reuses the same store without writing a configuration, finds nothing to upload, sends nothing, saves no tracker and saves the same metadata |
| GroundedAnswer.Contents | app.py:80-95 | the context has `min(6, |history|) + 1` turns: the last six history messages in order, role `user` kept and every other role mapped to `model`, then the query as a user turn |
| GroundedAnswer.BuildContents | app.py:80-95 | the loop builds exactly that context |
| GroundedAnswer.JoinedAppend | app.py:128-131 | the answer of two runs of parts is the two answers concatenated in order |
| GroundedAnswer.JoinedFirst | app.py:128-131 | the first part's text comes first; a part without text contributes nothing |
| GroundedAnswer.ConcatParts | app.py:128-131 | the `+=` loop computes the in-order concatenation of the parts' texts |
| GroundedAnswer.SnippetOf | app.py:146 | a snippet is exactly the first min(150, length) characters of the text; `""` when there is no text |
| GroundedAnswer.CollectedTitles | app.py:136-143 | the collected titles are exactly the titles of the chunks that carry a retrieved context (`Unknown` when untitled) |
| GroundedAnswer.CollectedDistinct | app.py:137-143 | no two collected citations share a title |
| GroundedAnswer.CollectedIsFirstOccurrences | app.py:138-147 | the collected citations are exactly those of the first chunk of each title, in first-seen order |
| GroundedAnswer.CollectedSnippets | app.py:146 | every collected snippet has at most 150 characters |
| GroundedAnswer.CitationsOfBounded | app.py:124-149 | at most five citations, with distinct titles and short snippets; exactly the first min(5, n) of the first occurrences among the first candidate's chunks; none without a candidate |
| GroundedAnswer.CollectCitations | app.py:134-147 | the loop with its `seen_titles` set computes the collected citations |
| GroundedAnswer.DecimalRoundTrip | app.py:117 | the status code written into the error text can be read back |
| GroundedAnswer.CitationsFor | app.py:116-154 | citations are returned only for a reply with status 200 |
| GroundedAnswer.FailuresReturnNoCitations | app.py:116-117 | a timeout yields the fixed apology, an exception a text carrying its message, a non-200 status a text carrying the code; all with no citations and nothing raised |
| GroundedAnswer.SearchAndAnswer | app.py:72-154 | returns the context it sends and exactly the answer and citations the reply determines |
| ChatSession.NeedsResponse | app.py:292-296 | when an answer is owed, the history sent with the query holds no more assistant answers than user messages |
| ChatSession.AlternatingCounts | app.py:292-296 | on an alternating user/assistant transcript the user and assistant counts are ⌈n/2⌉ and ⌊n/2⌋ |
| ChatSession.NeedsResponseAlternating | app.py:292-296 | on an alternating transcript an answer is owed exactly when the length is odd |
| ChatSession.AnswerKeepsAlternation | app.py:314-318 | appending the owed answer keeps the transcript alternating |
| ChatSession.RespondIfNeeded | app.py:292-318 | with no answer owed nothing is sent or changed; otherwise the last message is the query, the ones before it the history, the answer with its citations is appended, and afterwards no answer is owed |
| CitationResolver.RemoveMd | app.py:223 | `str.replace('.md', '')`: the key is never longer than the title |
| CitationResolver.RemoveMdInterior | app.py:223 | the first `.md` is removed wherever it stands, and the rest of the title is keyed in turn, so every occurrence goes, not only a trailing one |
| CitationResolver.RemoveMdInteriorExample | app.py:223 | `a.mdb` is keyed as `ab` |
| CitationResolver.RemoveMdPlain | app.py:223 | a title without `.md` is its own key |
| CitationResolver.RemoveMdSuffix | app.py:223 | appending `.md` to a title does not change its key |
| CitationResolver.GetArticleInfo | app.py:219-226 | the record is found exactly when the key (every `.md` removed) is in the metadata, and then it is that key's record; otherwise the raw title with a null URL |
| CitationResolver.ResolvesIngestedDocument | app.py:219-226 | a citation titled by a document's file name, or by the display name it was uploaded under, resolves to that document's record when its stem contains no `.md` |
| CitationResolver.ResolvesAfterMerge | app.py:219-226 | after the metadata merge every folder document with a `.md`-free stem resolves to the record the merge holds for it |
| CitationResolver.ResolvesExample | app.py:223-226 | `article-42.md` resolves through the key `article-42`, or to the raw title when that key is absent |

## Left out

- HTTP calls, endpoint URLs, request headers and JSON request bodies are not modelled. Replies are oracle inputs: `Listing`, `Creation`, `UploadOutcome` and `Reply`.
- The request's system prompt, `temperature`, `maxOutputTokens` and the file-search tool field are constants passed through, so they are not modelled.
- The 60-second request timeout is not modelled as a clock. A timeout is the `Reply.TimedOut` case.
- YAML decoding (`yaml.safe_load`) is a function parameter `decode`. `None` stands for a decoder that raises.
- File reads and writes and JSON persistence (`load_*`, `save_*`) are not modelled. Loaded state is an in-memory snapshot. A saved file is an `Option` in the run's `Report`.
- An unreadable article is `DocFile.content == None`. Path handling, and deriving `stem` from the file name, are not modelled: both `name` and `stem` are given.
- The `glob` enumeration order is not modelled. The folder is a sequence in whatever order the listing yields.
- The `created_at` timestamp of the store config (wall clock) and the `time.sleep(0.3)` pacing are not modelled.
- Progress and error printing is not modelled.
- The exceptions `list_stores` and `create_store` raise on network failure are not modelled. A non-200 listing gives no stores; a failing creation ends the run as `StoreCreationFailed`.
- Records loaded from an existing metadata file are assumed to have the three fields `title`, `url` and `author`. Other fields of loaded records are not modelled.
- The Streamlit UI is not modelled. That covers rendering, session-state setup, example-question buttons, `st.stop`, `st.rerun`, and the app's API-key and store-config checks.
- The chat-input branch of the app (app.py:322-349) is not modelled separately. It answers a fresh prompt the same way `ChatSession.RespondIfNeeded` answers an owed one.
- The app reads `url` from a resolved record and renders a link only when it is truthy. `CitationResolver.InfoUrl` gives that field, but the rendering is not modelled.
- Frontmatter.ParseFrontmatter, Metadata.Merge, Metadata.GenerateMetadata, StoreSync.Run, StoreSync.Sync: these model the corrected header handling, where a header decoding to a true non-mapping value counts as `{}`. The source instead raises `AttributeError` at init_store.py:116 and aborts `main` before anything is saved. `Metadata.MergeAsWritten` and `Metadata.ScalarHeaderAbortsMerge` capture that behaviour for the merge. The run-level abort is not modelled.
- The remote state between two runs is not modelled beyond `StoreSync.ListingAfter`: a later listing is assumed to list the stores listed before, followed by the store the first run created.
- `MergeAsWritten` models the source's failure as a whole-run abort (`None`). It does not model which files were processed before the exception.

## Findings

| source | as written | input that shows it | evidently intended | confidence | as-written member | corrected member |
|---|---|---|---|---|---|---|
| init_store.py:72 | `parse_frontmatter` returns the decoded YAML whenever it is truthy, even when it is not a mapping; `generate_metadata` then calls `.get` on it (init_store.py:116, 121) and the `AttributeError` ends the whole run before any metadata is saved | an article `memo.md` whose content is `---\nhello\n---\n` (the header decodes to the string `hello`) | a header that is not a mapping is treated like a missing one (`{}`), so the article gets default title, url and author | not executed; high (the header decodes to a plain string) | Metadata.ScalarHeaderAbortsMerge | Metadata.MergeKeys |
