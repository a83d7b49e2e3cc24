# A verified model of the Flask help-desk chatbot

`practicecode/flask-chatbot/Chatbotai.py` is a small question-answering
service. This project models its core in Dafny and proves properties of it:

- **Conversation handler** (`ai_chatbot`). The input is lower-cased. A
  greeting substring ("hello", "hi", "hey") is checked first, then "thank".
  Only when neither occurs does the handler fall through to similarity search.
- **Selection rule of the similarity search** (`ai_search`). It takes the
  first index of the maximum score. That row's answer is returned when the
  score is strictly above 0.2; otherwise a fixed fallback string is returned.
- **Category table** (the `qa_data` grouping loop). Rows of the primary
  dataset go into one bucket per category, kept in insertion order, with
  "General" used when a row has no category.
- **Exact-match lookup** over that table (`/answer`), the category query
  (`/questions`) and the category list (`/categories`).
- **Flat corpus and index** (`update_knowledge`). The corpus is seeded from
  the secondary dataset followed by the persisted file. Each learned exchange
  is appended last, the similarity index is refitted over the whole corpus,
  and the file is rewritten with the whole corpus.
- **The `/chat` cycle**. An empty message is refused and changes nothing.
  Otherwise the reply is computed, and the exchange is appended to the corpus
  whatever the reply was, greeting and fallback replies included.

Files and modules:

- `wrappers.dfy` (`Wrappers`): `Option`, and the endpoints' `Result` and `ApiError`.
- `text.dfy` (`Text`): ASCII lower-casing and substring tests.
- `responder.dfy` (`Responder`): the selection rule and the rule-based handler.
- `category_table.dfy` (`CategoryTable`): the grouping loop and first-match lookup.
- `knowledge_store.dfy` (`KnowledgeStore`): the class `Store`, which holds the
  category table, the corpus, the index and the persisted snapshot, and
  implements the request handlers.

How the two parts outside the model are abstracted:

- **Similarity scores.** The library computes them by transforming the query
  with TF-IDF and taking its cosine similarity against every indexed row. The
  model takes them from a parameter `score: seq<string> -> string -> seq<real>`.
  Given the current index and a query, it returns one score per index entry.
  `/chat` scores against the index refitted by the previous learned exchange.
- **The index.** It stands for the questions it was last fitted from. The
  store keeps the invariant that it is always `FitIndex(corpus)`: one entry
  per corpus row, with entry i coming from row i.

Two facts about the code follow from proved lemmas:

- "hi" occurs inside many ordinary words, such as "this" and "which". Any
  such input gets the greeting reply (`GreetingInsideWord`).
- The file is rewritten with the whole corpus, seed rows included. At start-up
  the seed rows are loaded again in front of the file's contents, so after a
  restart the seed rows appear twice (`RestartAfterWrite`). This is the code's
  behaviour, and the model keeps it.

## Model

| member | source | states |
|---|---|---|
| `Text.ToLower` | practicecode/flask-chatbot/Chatbotai.py:46 | the result has the input's length; every ASCII upper-case letter becomes its lower-case form; every other character is unchanged; the result holds no upper-case letter |
| `Text.ToLowerIdempotent` | practicecode/flask-chatbot/Chatbotai.py:46 | lower-casing an already lower-cased string changes nothing |
| `Text.Contains` | practicecode/flask-chatbot/Chatbotai.py:47-49 | Python's `sub in s` is true exactly when `sub` occurs at some position of `s` |
| `Text.ContainsAny` | practicecode/flask-chatbot/Chatbotai.py:47 | `any(g in s for g in subs)` is true exactly when some element of `subs` occurs in `s` |
| `Text.ContainsTransitive` | practicecode/flask-chatbot/Chatbotai.py:47 | a substring of a substring of `s` occurs in `s` |
| `Responder.FirstMaxUnique` | practicecode/flask-chatbot/Chatbotai.py:40 | a score sequence has only one lowest index of its maximum |
| `Responder.ArgMax` | practicecode/flask-chatbot/Chatbotai.py:40 | the result is an index of the maximum score, and every earlier score is strictly smaller (numpy `argmax` picks the first maximum) |
| `Responder.Search` | practicecode/flask-chatbot/Chatbotai.py:40-43 | at the first best-scoring row, the result is that row's answer if the score is strictly above 0.2, else the fallback "I'm not sure. Could you clarify your question?"; when no score exceeds 0.2 the result is the fallback; when some score does, the result is the answer of a row scoring above 0.2 |
| `Responder.Respond` | practicecode/flask-chatbot/Chatbotai.py:45-51 | if the lower-cased input contains "hello", "hi" or "hey", the reply is "Hello! How can I help you?"; else if it contains "thank", the reply is "You're welcome!"; otherwise the reply is the search result for the scores of the original, un-lowered input |
| `Responder.GreetingInsideWord` | practicecode/flask-chatbot/Chatbotai.py:47-48 | any input whose lower-cased form contains "this" gets the greeting reply, whatever else it says |
| `Responder.RulesIgnoreCase` | practicecode/flask-chatbot/Chatbotai.py:46-50 | two inputs that are equal once lower-cased get the same rule-based reply |
| `Responder.HiThereIsGreeting` | practicecode/flask-chatbot/Chatbotai.py:45-48 | "hi there" gets the greeting reply, whatever the corpus and the scores are |
| `CategoryTable.CategoryOf` | practicecode/flask-chatbot/Chatbotai.py:29 | a row's bucket key is its category, or "General" when the row has none |
| `CategoryTable.RecordOf` | practicecode/flask-chatbot/Chatbotai.py:30-32 | a row's stored record holds its question and answer, each "" when the row has none |
| `CategoryTable.CategoriesOf` | practicecode/flask-chatbot/Chatbotai.py:28-29 | one category per row, in row order, with "General" for a row that has no category |
| `CategoryTable.FirstOccurrences` | practicecode/flask-chatbot/Chatbotai.py:32 | the dict's keys: a category is added at the end when its first row is met, and never again |
| `CategoryTable.Bucket` | practicecode/flask-chatbot/Chatbotai.py:32 | a category's list: each row of that category appends its record at the end, other rows leave it alone |
| `CategoryTable.FirstOccurrencesSpec` | practicecode/flask-chatbot/Chatbotai.py:27-32 | the table's keys hold no repeats; they are exactly the categories that occur; they come in the order of each category's first row |
| `CategoryTable.BucketIndices` | practicecode/flask-chatbot/Chatbotai.py:28-32 | the positions of the rows of category k: every such position, nothing else, in increasing order |
| `CategoryTable.BucketInSourceOrder` | practicecode/flask-chatbot/Chatbotai.py:28-32 | bucket k holds, in source order, the records of exactly the rows of category k |
| `CategoryTable.RowInExactlyOneBucket` | practicecode/flask-chatbot/Chatbotai.py:28-32 | each row's category is a key, and the row is in bucket k exactly when k is its category |
| `CategoryTable.BucketOfAbsentCategory` | practicecode/flask-chatbot/Chatbotai.py:32 | a category that no row carries has an empty bucket |
| `CategoryTable.BucketSnoc` | practicecode/flask-chatbot/Chatbotai.py:32 | one more row extends only its own category's bucket, by its record at the end |
| `CategoryTable.KeysSnoc` | practicecode/flask-chatbot/Chatbotai.py:32 | one more row adds its category as the last key, unless it is a key already |
| `CategoryTable.GroupByCategory` | practicecode/flask-chatbot/Chatbotai.py:27-32 | the loop produces the first-occurrence-ordered keys, and a map whose keys are exactly those; each key's bucket is the non-empty, source-ordered sequence of that category's records |
| `CategoryTable.Flatten` | practicecode/flask-chatbot/Chatbotai.py:99-100 | the records visited by the nested scan: each bucket of `qa_data.values()` in key order, each bucket in row order |
| `CategoryTable.FirstMatch` | practicecode/flask-chatbot/Chatbotai.py:100-102 | the scan stops at the first record whose question equals the query and yields its answer; it yields nothing past the last record |
| `CategoryTable.FlattenMembers` | practicecode/flask-chatbot/Chatbotai.py:99-100 | the nested scan visits exactly the records of the buckets of the keys |
| `CategoryTable.FirstMatchSpec` | practicecode/flask-chatbot/Chatbotai.py:99-103 | nothing is found exactly when no record's question equals the query; otherwise the answer is that of the lowest-placed record whose question equals it |
| `CategoryTable.FlattenHasAll` | practicecode/flask-chatbot/Chatbotai.py:99-100 | scanning every key of the table visits exactly the records of all its buckets |
| `CategoryTable.FlattenStep` | practicecode/flask-chatbot/Chatbotai.py:99-100 | the records from one key on are that key's bucket followed by the records of the later keys |
| `CategoryTable.FirstMatchStep` | practicecode/flask-chatbot/Chatbotai.py:100-102 | at each record the scan either stops with its answer or goes on past it |
| `CategoryTable.NoMatchAnywhere` | practicecode/flask-chatbot/Chatbotai.py:99-103 | when the scan finds nothing, no record in any bucket has the queried question |
| `Wrappers.ApiError.Message` | practicecode/flask-chatbot/Chatbotai.py:71 | the error texts "Missing message", "Invalid or missing category" (line 92) and "Question not found" (line 103) |
| `Wrappers.ApiError.Status` | practicecode/flask-chatbot/Chatbotai.py:71 | the statuses 400 for a missing message, 400 for a bad category (line 92) and 404 for an unknown question (line 103) |
| `KnowledgeStore.FitIndex` | practicecode/flask-chatbot/Chatbotai.py:57 | the index has one entry per corpus row, and entry i comes from row i's question |
| `KnowledgeStore.InitialCorpus` | practicecode/flask-chatbot/Chatbotai.py:13-20 | the start-up corpus is the secondary dataset's rows followed by the persisted file's rows, or the secondary rows alone when there is no file |
| `KnowledgeStore.RestartAfterWrite` | practicecode/flask-chatbot/Chatbotai.py:16-20 | reloading a file written from a corpus that begins with the seed rows gives the seed rows twice, followed by that whole corpus |
| `KnowledgeStore.Store.constructor` | practicecode/flask-chatbot/Chatbotai.py:12-32 | the category table is the grouping of the primary rows; the corpus is the start-up corpus; the index is fitted over it; the snapshot is the file as found |
| `KnowledgeStore.Store.UpdateKnowledge` | practicecode/flask-chatbot/Chatbotai.py:53-59 | the corpus grows by exactly the row (q, a), placed last, with earlier rows unchanged; the index is refitted, so it has one entry per row; the file holds the new corpus; the category table is unchanged |
| `KnowledgeStore.Store.Chat` | practicecode/flask-chatbot/Chatbotai.py:66-79 | a missing or empty message gives "Missing message" and leaves corpus, index and file unchanged; otherwise the reply is `Respond` on the current corpus, scored against the current index, and the pair (message, reply) is appended and persisted whatever the reply was |
| `KnowledgeStore.Store.CategoryNames` | practicecode/flask-chatbot/Chatbotai.py:81-85 | the category names in insertion order (the table's key sequence), each once, exactly the table's keys |
| `KnowledgeStore.Store.Questions` | practicecode/flask-chatbot/Chatbotai.py:87-93 | a missing, empty or unknown category gives "Invalid or missing category"; otherwise the result is exactly that category's stored records |
| `KnowledgeStore.Store.FindAnswer` | practicecode/flask-chatbot/Chatbotai.py:95-103 | the result is the answer of the first record, in category-then-row order, whose question equals the query exactly (case-sensitive; a missing question reads as ""); it is "Question not found" exactly when no record in any category has that question |
| `KnowledgeStore.GreetingScenario` | practicecode/flask-chatbot/Chatbotai.py:66-79 | on a freshly started service, "hi there" gets the greeting reply, and a restart afterwards finds the pair as the last corpus row |

## Left out

- Flask routing, JSON parsing and serialisation are left out. The handlers take
  the request's field as an `Option<string>`, and an error is an `ApiError`
  carrying its message and status. A request body that is not a JSON object,
  or a field that is not a string, is not modelled.
- File I/O is left out: reading the two spreadsheets, reading the persisted
  JSON file and rewriting it. The datasets and the file's contents are
  constructor parameters. The file, while the process runs, is the `snapshot`
  field.
- TF-IDF fitting and transforming, and cosine similarity, are left out. They
  are calls into the machine-learning library. Scores come from the `score`
  parameter, and the index is abstracted to the questions it was fitted from.
- Floating point is left out. Scores are reals and 0.2 is exact, so numpy's
  handling of NaN in `argmax` is not modelled.
- pandas details are left out. The model treats a missing field per row as one
  that `row.get` defaults; pandas applies the default only when the whole
  column is absent, and gives NaN for a blank cell. The model's rows hold
  strings only: numeric, blank (NaN) or other non-string spreadsheet cells are
  not modelled, and neither is the text `astype(str)` makes of them for the
  index (such as "nan").
- `Text.ToLower`: does not model Unicode case mapping, only the ASCII letters 'A'..'Z', because Dafny strings carry no Unicode tables.
- `Responder.Respond`: requires a non-empty corpus even when a rule fires. The
  corpus is never empty while the service runs, because the vectorizer refuses
  to fit an empty corpus at start-up. The `Store` constructor therefore
  requires at least one initial row.
- The debug `print` calls and the liveness route `/` are left out.
- Concurrency is left out. Requests are taken one at a time. The unguarded
  update of the corpus and index by simultaneous `/chat` requests is a race in
  the code; the model does not describe it.
