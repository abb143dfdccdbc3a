# PMB chat-history core in Dafny

PMB ("Persistent Memory Bot") keeps every exchange with the user in a SQLite
table `chats (id, timestamp, prompt, response, topic)`. Before answering, it
builds a context history from that table. In "full" mode this is every
exchange in id order. In "smart" mode it is at most one labelled exchange. A
chat scores one point for each adjacent pair of its words whose two words
both occur somewhere in the user's message; the pair need not appear side by
side there. Smart mode takes the first labelled exchange with the highest
score, and nothing when no exchange scores at least 1. After
answering, it saves the new exchange with the topic `'Untitled'`. A "sleep"
sweep later asks the language model for a short topic for every untitled row.

This project models that core of `modules/pmbl.py` as pure functions over an
in-memory table. It also proves what the code promises:

- the pair-counting score and its bounds
- the first-maximum choice of the relevant chat
- the shapes of the two history modes
- the append-only save
- the topic sweep, which changes nothing but the topics of untitled rows
- the `role: content` transcript that is handed to the model

Modules, in dependency order:

| module | file | what it holds |
|---|---|---|
| `Base` | `base.dfy` | `Option`, `Result` |
| `Text` | `text.dfy` | Python's `str.isspace`, ASCII `lower()`, `split()` with no arguments, `strip()` |
| `Similarity` | `similarity.dfy` | `calculate_similarity_score` |
| `Store` | `store.dfy` | the `chats` table: rows, insert, fetch by id, the two topic selects, the topic update |
| `Selector` | `selector.dfy` | `find_relevant_chat` |
| `History` | `history.dfy` | `get_chat_history` in both modes |
| `Sleep` | `sleep.dfy` | `sleep_mode` and `generate_topic` |
| `Transcript` | `transcript.dfy` | the history formatting in `generate_response` |

The language model and the clock are parameters:

- `generate_topic`'s completion is an `oracle: (string, string) -> string` from `(prompt, response)` to raw text. The stored topic is `Strip(oracle(prompt, response))`.
- The timestamp `save_chat_history` reads from the clock is an argument of `Store.Save`.

The table is a `seq<Chat>` in id order. A table built only by `Save` is `WellFormed`: its ids are positive and strictly increasing, which is what `AUTOINCREMENT` hands out when no row is deleted.

## Model

| member | source | states |
|---|---|---|
| Similarity.CalculateSimilarityScore | modules/pmbl.py:66-75 | The method returns exactly `Score(text1, text2)`. That is the number of adjacent pairs of the first text's lower-cased words whose two words both occur in the second text's words. |
| Similarity.CountPairs | modules/pmbl.py:70-75 | The loop over `range(len(words1) - 1)` with its two membership tests returns the score of the two word lists. |
| Similarity.PairCount | modules/pmbl.py:70-73 | The hits counted over the first `n` pairs are at most `n`. The count is 0 exactly when no pair hits, and `n` exactly when every pair hits. |
| Similarity.Score | modules/pmbl.py:66-75 | The score never exceeds the number of adjacent pairs in the first text. A first text of fewer than two words scores 0. |
| Similarity.PairCountIsHitCount | modules/pmbl.py:70-73 | The count is the size of the set of pair indices whose two words are both members of the second list. |
| Similarity.ScoreIsHitCount | modules/pmbl.py:66-75 | A text's score is the number of scoring pair indices among its words. |
| Similarity.ScoreMembershipOnly | modules/pmbl.py:72 | `in words2` is a membership test: two second texts with the same vocabulary give every first text the same score, whatever their word order or repetition. |
| Similarity.EmptySecondText | modules/pmbl.py:68-73 | A second text with no words scores 0 against anything. |
| Similarity.ScorePositive | modules/pmbl.py:70-75 | The score is at least 1 if and only if some adjacent pair of the first text has both words in the second. |
| Similarity.ScoreCaseInsensitive | modules/pmbl.py:67-68 | Lower-casing either text beforehand leaves the score unchanged. |
| Similarity.WordsOfExchange | modules/pmbl.py:58 | The words of `prompt + " " + response` are the prompt's words followed by the response's words. |
| Similarity.WorkedExample | modules/pmbl.py:66-75 | `"red fox jumps"` against `"the fox jumps over"` scores 1: only the pair ("fox", "jumps") scores. |
| Text.Lower | modules/pmbl.py:67-68 | `lower()` keeps the length, leaves no capital letter, turns each capital into its small letter and keeps every other character. |
| Text.Split | modules/pmbl.py:67-68 | `split()` yields only non-empty words without whitespace, and yields none exactly when the text is all whitespace. |
| Text.SplitAppend | modules/pmbl.py:67 | Splitting two texts joined at a whitespace boundary gives the words of each, in order. |
| Text.SplitJoin | modules/pmbl.py:67 | Splitting words joined by single spaces gives back exactly those words. |
| Text.LowerIdempotent | modules/pmbl.py:67 | Lower-casing twice is lower-casing once. |
| Text.Strip | modules/pmbl.py:149 | `strip()` returns a contiguous slice of its input. Only whitespace is removed on either side, and the result neither starts nor ends with whitespace. |
| Text.StripIdempotent | modules/pmbl.py:149 | Stripping a stripped text changes nothing. |
| Selector.Scan | modules/pmbl.py:53-64 | The loop with a running maximum started at 0 and a strict `>` update ends with nothing exactly when every score is 0. Otherwise it ends at the first index holding the highest score. |
| Selector.RelevantIndex | modules/pmbl.py:52-64 | The chosen position is absent exactly when every candidate scores 0. Otherwise it is the first maximum: it scores at least 1, nothing scores more, and everything before it scores strictly less. |
| Selector.FindRelevantChat | modules/pmbl.py:52-64 | `None` is returned exactly when every candidate scores 0. Otherwise the result is the id of the candidate at the first-maximum position. |
| Selector.FirstMaximumOfCandidates | modules/pmbl.py:56-62 | Being the first maximum of the score list is the same as: scoring at least 1, no candidate scoring more, and every earlier candidate scoring strictly less. |
| Selector.FirstMaximumUnique | modules/pmbl.py:60-62 | The tie-break picks a single position: two first maxima coincide. |
| Selector.NoCandidates | modules/pmbl.py:52-64 | With no labelled chats the result is `None`. |
| Selector.StrictlyBetterWins | modules/pmbl.py:56-62 | Of two candidates, one that scores strictly higher is chosen, whichever comes first. |
| Store.NextId | modules/pmbl.py:16 | The id an insert receives is positive and larger than every id in the table. |
| Store.Save | modules/pmbl.py:77-83 | The insert appends one row and leaves every earlier row unchanged. The new row has the given timestamp, prompt and response, the topic `'Untitled'` and a fresh id. Well-formedness is kept. |
| Store.Lookup | modules/pmbl.py:40-41 | The fetch by id returns nothing exactly when no row has that id. Otherwise it returns the first row with that id. |
| Store.LookupOwnId | modules/pmbl.py:40-41 | In a well-formed table, fetching a row's own id returns that row. |
| Store.SaveThenLookup | modules/pmbl.py:81 | A saved row can be fetched by its new id, untitled. |
| Store.Where | modules/pmbl.py:35 | A filtered select returns exactly the rows that pass the filter, and no more rows than the table has. |
| Store.WhereKeepsOrder | modules/pmbl.py:35 | A select keeps the passing rows in table order: selecting from two tables joined is joining the two selections, and a single row is kept exactly when it passes. |
| Store.WhereWellFormed | modules/pmbl.py:35 | A filtered select of a well-formed table is well-formed: ids stay in increasing order. |
| Store.Labelled | modules/pmbl.py:35 | `WHERE topic != 'Untitled'` selects exactly the rows with another topic and keeps them well-formed. |
| Store.Unlabelled | modules/pmbl.py:125 | `WHERE topic = 'Untitled'` selects exactly the untitled rows and keeps them well-formed. |
| Store.WhereNone | modules/pmbl.py:35 | A filter that no row passes selects nothing. |
| Store.FiltersPartition | modules/pmbl.py:125 | The labelled and the untitled selects together account for every row exactly once. |
| Store.SetTopic | modules/pmbl.py:131 | `UPDATE ... SET topic = ? WHERE id = ?` gives every row with that id the new topic. It leaves every other row, and every other column, unchanged. |
| History.FullHistory | modules/pmbl.py:28-33 | "full" mode has two entries per row. For row `k`, entry `2k` is its user entry and entry `2k+1` its `[timestamp] response` entry, in id order. |
| History.GetChatHistory | modules/pmbl.py:24-50 | `get_chat_history` never fails. "full" mode has the full shape. Any other mode yields the empty list or the pair of a single row of the table. |
| History.SmartHistory | modules/pmbl.py:34-47 | Smart mode never fails and yields nothing or the pair of one row of the table. In a well-formed table it is empty exactly when every labelled row scores 0 against the message, and otherwise it is the pair of the first labelled row with the highest score. |
| History.SmartChoice | modules/pmbl.py:37-41 | A truthy chosen id is always found by the fetch, so `get_chat_history`'s `row[1]` on a missing row cannot happen. In a well-formed table every chosen id is truthy and fetches the first labelled row with the highest score. |
| History.ChosenRow | modules/pmbl.py:35-37 | The id that is found belongs to a labelled row of the table, and that row is the first maximum among the labelled rows. |
| History.SmartHistorySelects | modules/pmbl.py:34-47 | In a well-formed table, smart mode is empty exactly when every labelled row scores 0 against the message. Otherwise it is the pair of the first highest-scoring labelled row. |
| History.FetchOwnRow | modules/pmbl.py:40-41 | In a well-formed table, a row's id is truthy and the fetch by that id returns the row. |
| History.SmartHistoryIsLabelled | modules/pmbl.py:35-45 | Smart mode only ever returns a row whose topic is not `'Untitled'`. |
| History.SmartHistoryWithoutLabels | modules/pmbl.py:35-47 | With every row untitled, smart mode returns an empty history. |
| History.FullHistoryAppend | modules/pmbl.py:29-33 | The full history of two tables joined is the two full histories joined. |
| History.SaveExtendsFullHistory | modules/pmbl.py:28-33 | After a save, the full history is the previous one plus exactly the new exchange's user and PMB entries. |
| Sleep.Label | modules/pmbl.py:149 | The topic is the model's completion with whitespace removed from both ends: a contiguous slice of the completion that neither starts nor ends with whitespace. |
| Sleep.Sweep | modules/pmbl.py:128-132 | The update loop keeps the row count. It never changes a row's id, timestamp, prompt or response. |
| Sleep.Labels | modules/pmbl.py:128-131 | The combined updates assign a topic to exactly the ids of the pending rows. |
| Sleep.SweepApplies | modules/pmbl.py:128-132 | Running the updates one by one equals applying their combined id-to-topic map to every row at once. |
| Sleep.LabelsOfDistinct | modules/pmbl.py:128-131 | With distinct ids, each pending row's id is mapped to that row's own stripped label. |
| Sleep.SleepModeRelabels | modules/pmbl.py:125-132 | In a well-formed table the sweep relabels each untitled row and leaves each labelled row as it is. |
| Sleep.SleepMode | modules/pmbl.py:122-134 | `sleep_mode` keeps the row count and every exchange. In a well-formed table, rows with a topic are unchanged and each untitled row's topic becomes `Strip(oracle(prompt, response))`. Well-formedness is kept. |
| Sleep.PointwiseRelabel | modules/pmbl.py:125-132 | The swept table relabels each row independently of the others. |
| Sleep.SleepModeIdempotent | modules/pmbl.py:122-134 | A second sweep with the same oracle changes nothing more. |
| Sleep.SleepModeKeepsLabels | modules/pmbl.py:125-131 | Whatever a second sweep's model answers, every row the first sweep labelled keeps its label. |
| Sleep.SleepModeLabelsAll | modules/pmbl.py:125-131 | If the oracle never labels a row `'Untitled'`, no untitled row remains after the sweep. |
| Sleep.SaveThenSleep | modules/pmbl.py:122-134 | Saving and then sweeping gives the sweep of the old table plus the new row with its stripped label. |
| Transcript.Render | modules/pmbl.py:88-90 | The transcript is empty exactly for an empty history and otherwise ends with a newline. `RenderSnoc` and `RenderAppend` give its exact content; `ParseRender` reads it back for histories whose entries hold no newline. |
| Transcript.FormatHistory | modules/pmbl.py:85-90 | The transcript is the history's lines followed by a final `user: <prompt>` line. |
| Transcript.RenderAppend | modules/pmbl.py:89-90 | The transcript of two histories joined is the two transcripts joined. |
| Transcript.ParseRender | modules/pmbl.py:88-90 | The transcript of a history whose roles have no colon and whose entries have no newline reads back, line by line, as exactly that history. |
| Transcript.FormatHistoryRoundTrip | modules/pmbl.py:86-90 | With such a history and a one-line prompt, the transcript reads back as the history followed by the prompt as the last user entry. |

## Left out

- `app.py` (the web front end) is not part of this model.
- Llama inference, the language-model calls themselves (lines 97-118 and 137-147):
  - `generate_topic` is modelled only through the `oracle` parameter and the final `strip()`.
  - `generate_response_task` is left out entirely, including its call to `save_chat_history` at line 120. `Store.Save` models that call on its own.
- Oracle failures: a model call that raises, or returns no choices, is not modelled. The oracle is a total function.
- Sleep.SleepModeIdempotent: it holds only for one fixed oracle. `generate_topic` samples the model at temperature 0.7 (line 144), so a second sweep may label a row again if its first label stripped to `'Untitled'`. `Sleep.SleepModeKeepsLabels` states what holds for any second answer.
- The stop sequence `"\\n"` at line 145 is a literal backslash followed by `n`, not a newline. It only shapes the raw completion and is invisible behind the oracle.
- The system-prompt templates (lines 92-95) are fixed text around the transcript and are not modelled. Only the transcript built at lines 86-90 is.
- The `ThreadPoolExecutor`, the streaming generator and the yielding of chunks (lines 97-100) are left out as concurrency and I/O.
- SQLite connections, commits and `init_db`:
  - The table is a value that is passed in and returned.
  - A fresh database is the empty sequence.
  - Each sweep update is applied in turn, as the per-row commit makes it.
- `datetime.now().strftime(...)` (line 80) is replaced by a `timestamp` argument. Its format is not modelled.
- Store.NextId: it models `AUTOINCREMENT` as "largest id plus one". That equals SQLite's behaviour for a table whose rows are never deleted, which this core never does. SQLite's separate sequence table is not modelled.
- Text.Lower: `str.lower()` is modelled for ASCII `A`-`Z` only. Python lower-cases every Unicode letter.
- The smart-mode select at line 35 has no `ORDER BY`. It is modelled as returning rows in id order, which is SQLite's usual scan order for this table but not a guarantee.
- `generate_response` appends the prompt to the caller's own history list (line 86). The model returns a new sequence and does not model the aliasing.
- The table's `topic` column has no default value in the `CREATE TABLE` (lines 15-20). Every insert names `'Untitled'` explicitly (line 81), and the model follows that code rather than assuming a column default.
- The `RowVanished` failure of `History.SmartHistory` can only arise if the chosen row disappeared between the two selects. That cannot happen in this single-threaded model, and `History.SmartChoice` proves it never does.
