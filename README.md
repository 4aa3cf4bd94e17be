# Semantic query REPL, modelled in Dafny

`semantic_query.py` is a console program for searching a recipe collection by meaning. It works in four steps:

- It reads the first 100,000 rows of a CSV file into a dictionary from the stringified id to the title and text.
- It loads document ids and their embeddings that were computed beforehand.
- It then loops, reading one line at a time:
  - `end` stops the program;
  - `query <text>` ranks every document by cosine similarity to the text and prints the best five;
  - `see <id>` shows one document, trying `<id>.txt` first when the id does not already end in `.txt`;
  - anything else prints an invalid-command warning.

The project models this logic in two modules:

- `PyStr` (`py_str.dfy`) models the parts of Python's `str` that the program uses:
  - `strip()` with Python's full whitespace set;
  - `lower()` on ASCII letters;
  - `startswith` and `endswith`.
- `SemanticQuery` (`semantic_query.dfy`) models the program itself:
  - **Corpus loop.** `BuildCorpus` is a method whose loop invariant ties it to the function `CorpusOf`.
  - **Command classification.** `Classify` is a function.
  - **`see` resolution.** `ResolveId` and `SeeDocument` are functions.
  - **Top-k selection.** This is specified by the predicate `IsTopK`. `TopIndices` is one concrete argsort that satisfies it.
  - **Result listing.** `ListHits` models the printing of results. It includes the uncaught `KeyError` and `IndexError`.
  - **REPL loop.** `Loop` and `Repl` are methods that return the printed replies and the reason the loop stopped.

The embedding model is not modelled; it is a parameter. That parameter, `model: string -> seq<real>`, maps a query text to one score per row of the embedding table. The argsort is also a parameter, `rank`, constrained only by the top-k promise. Console input is a sequence of lines. Each printed message is a `Reply` value.

Three points where the program's behaviour is less obvious than it looks:

- **The empty-query warning can never be printed.** The line is stripped before it is tested. So text that starts with `query ` always has a non-blank character after the keyword, and the warning at lines 43-45 is dead code. A bare `query` falls through to the invalid-command warning (`Classify`, `BareQueryInvalid`).
- **Ties are not broken in a fixed order.** `argsort()[::-1]` is numpy's default, non-stable argsort, reversed. So equal scores come out in no promised order. The model promises only what `IsTopK` states: length, distinct in-range indices, non-increasing scores, and no left-out index scoring higher. Two selections that both keep that promise print the same scores (`TopKScoresDetermined`). They can still differ in which documents they print, and therefore in whether a missing corpus key crashes the program (`TiesDecideCrash`).
- **`see x` and `see x.txt` need not agree.** They show the same document when `x.txt` is a key (`SeeSuffixedAgrees`). When only `x` is a key, `see x` finds it and `see x.txt` does not (`SeeBareOnlyDisagrees`). A bare key whose `.txt` twin exists can never be shown (`ShadowedUnreachable`).

## Model

| member | source | states |
|---|---|---|
| SemanticQuery.CorpusOf | semantic_query.py:8-14 | the dictionary that storing the rows in order builds has exactly the ids of the rows as keys |
| SemanticQuery.CorpusOfLastWins | semantic_query.py:9-14 | a key holds the title and text of the last row carrying that id |
| SemanticQuery.BuildCorpus | semantic_query.py:7-14 | the loop over the first 100,000 rows yields `CorpusOf` of those rows: keys are exactly their ids, and each key maps to the last row with that id |
| PyStr.TrimStart | semantic_query.py:35 | `lstrip` leaves no leading whitespace and never lengthens the line |
| PyStr.TrimEnd | semantic_query.py:35 | `rstrip` leaves no trailing whitespace and never lengthens the line |
| PyStr.TrimStartSpec | semantic_query.py:35 | `lstrip` keeps a suffix of the line and drops only whitespace |
| PyStr.TrimEndSpec | semantic_query.py:35 | `rstrip` keeps a prefix of the line and drops only whitespace |
| PyStr.Strip | semantic_query.py:35 | the stripped line has no whitespace at either end and is no longer than the line |
| PyStr.StripUnique | semantic_query.py:35 | stripping whitespace + core + whitespace gives back the core |
| PyStr.StripSplit | semantic_query.py:35 | every line is leading whitespace, its stripped form, and trailing whitespace |
| PyStr.StripIdempotent | semantic_query.py:35 | stripping twice is stripping once |
| PyStr.StripAbsorbs | semantic_query.py:35 | extra whitespace around a line does not change its stripped form |
| PyStr.StripEmptyIff | semantic_query.py:35 | the stripped line is empty exactly when the line is all whitespace |
| PyStr.Lower | semantic_query.py:37 | the lower-cased line has the same length and contains no upper-case ASCII letter |
| PyStr.LowerFixed | semantic_query.py:37 | `lower()` leaves a line unchanged exactly when it has no upper-case letter; lower-casing twice is lower-casing once |
| PyStr.LowerStripCommute | semantic_query.py:35-37 | lower-casing and stripping commute |
| SemanticQuery.ClassifyEnd | semantic_query.py:35-39 | a line ends the session exactly when, stripped and lower-cased, it is `end` |
| SemanticQuery.RemainderNotBlank | semantic_query.py:41-43 | after a keyword ending in a space, a stripped line has a non-blank, stripped remainder |
| SemanticQuery.Classify | semantic_query.py:35-71 | no line is classified as an empty query, so the warning at lines 43-45 is dead; a query text and a looked-up id are never blank and carry no surrounding whitespace |
| SemanticQuery.ClassifyStripped | semantic_query.py:37-71 | for an already stripped line, the same: never the empty query, and non-blank stripped arguments |
| SemanticQuery.ClassifyQuery | semantic_query.py:41-42 | a line is a query exactly when its stripped, lower-cased form starts with `query `; the text is the stripped remainder from index 6, in its original case, and is non-empty |
| SemanticQuery.BareQueryInvalid | semantic_query.py:41-71 | a line that is `query` after stripping and lower-casing is an invalid command |
| SemanticQuery.ClassifySee | semantic_query.py:59-60 | a line is a lookup exactly when its stripped, lower-cased form starts with `see ` (and is not a query or `end`); the id is the stripped remainder from index 4, and is non-empty |
| SemanticQuery.ClassifyInvalid | semantic_query.py:70-71 | a line is invalid exactly when it is not `end` and starts with neither `query ` nor `see ` |
| SemanticQuery.ClassifyIgnoresPadding | semantic_query.py:35 | whitespace around a line never changes its classification |
| SemanticQuery.ClassifyIgnoresCase | semantic_query.py:37-60 | lines that agree up to ASCII case give the same command, with arguments that agree up to case |
| SemanticQuery.ExampleEnd | semantic_query.py:35-39 | `  End ` ends the session |
| SemanticQuery.ExampleBareQuery | semantic_query.py:41-71 | `query` followed only by blanks is an invalid command |
| SemanticQuery.ExampleBanana | semantic_query.py:70-71 | `banana` is an invalid command |
| SemanticQuery.ExampleQuery | semantic_query.py:41-42 | ` query  Pasta ` is the query `Pasta` |
| SemanticQuery.ResolveId | semantic_query.py:61-62 | the resolved id is the given id, or the id with `.txt` appended when that form is a key |
| SemanticQuery.SeePrefersSuffix | semantic_query.py:61-62 | an id without `.txt` whose suffixed form is a key shows the suffixed document, even if the bare id is a key |
| SemanticQuery.SeeExact | semantic_query.py:61-68 | otherwise the id is looked up unchanged and reported unchanged when missing |
| SemanticQuery.SeeDocument | semantic_query.py:61-68 | a lookup succeeds exactly when the id, or its suffixed form for an id without `.txt`, is a key; it then shows what the corpus holds for the resolved id, and otherwise reports it missing |
| SemanticQuery.SeeSuffixedAgrees | semantic_query.py:61-66 | `see x` and `see x.txt` show the same document when `x.txt` is a key |
| SemanticQuery.SeeBareOnlyDisagrees | semantic_query.py:61-68 | with only `7` as a key, `see 7` finds it and `see 7.txt` is not found |
| SemanticQuery.ShadowedUnreachable | semantic_query.py:61-63 | a bare key whose `.txt` twin is a key is never the resolved id; in particular `see x.txt` never tries `x.txt.txt` |
| SemanticQuery.Insert | semantic_query.py:51 | inserting an index into a descending index list gives a descending list with exactly one more element |
| SemanticQuery.InsertDistinct | semantic_query.py:51 | inserting a new index into a list without repeats gives a list without repeats |
| SemanticQuery.Argsort | semantic_query.py:51 | the argsort is a permutation of `0 .. n-1`, ordered by non-increasing score |
| SemanticQuery.TopIndices | semantic_query.py:50-51 | `argsort()[::-1][:5]` returns `min(5, N)` distinct in-range indices, by non-increasing score, none beaten by an index left out |
| SemanticQuery.TopIndicesFewer | semantic_query.py:50-51 | with at most five documents, every document is ranked |
| SemanticQuery.TopKHeadIsMax | semantic_query.py:51 | the first ranked index has the maximum score |
| SemanticQuery.TopKTiesOpen | semantic_query.py:51 | with two equal scores, either index is a valid top-1 result |
| SemanticQuery.AboveIsEarlier | semantic_query.py:51 | an index scoring strictly above rank `a` is ranked before `a` |
| SemanticQuery.TopKNotBelow | semantic_query.py:51 | no top-k selection scores lower at any rank than another top-k selection |
| SemanticQuery.TopKScoresDetermined | semantic_query.py:51 | all top-k selections print the same scores in the same order |
| SemanticQuery.ListHits | semantic_query.py:54-57 | results are printed in rank order; the listing completes exactly when every index names an id that is a corpus key; otherwise it stops at the first that does not, with `IndexError` or `KeyError` |
| SemanticQuery.RunQuery | semantic_query.py:53-57 | for any top-5 ranking, the query prints hits for a prefix of that ranking, in order; it aborts exactly when some ranked index cannot be printed, and then stops at the first unprintable index with that index's `IndexError` or `KeyError` |
| SemanticQuery.AllTiedTopK | semantic_query.py:51 | when all scores are equal, any `min(k, N)` distinct in-range indices are a valid top-k selection |
| SemanticQuery.TiesDecideCrash | semantic_query.py:51-57 | with six equal scores and the first id missing from the corpus, one valid top-5 ranking crashes the query and another lists five results |
| SemanticQuery.TopIndicesIsRanker | semantic_query.py:51 | the concrete argsort keeps the top-k promise for every score vector |
| SemanticQuery.Respond | semantic_query.py:37-71 | only `end` says goodbye; only a query can abort; the invalid-command warning answers exactly the invalid lines; the empty-query warning is never printed; a query line is answered with a top-5 ranking of the scores of its own stripped text; a `see` line gets the lookup reply for its id |
| SemanticQuery.ScoresOnlyForQueries | semantic_query.py:47-49 | the embedding model influences only the replies to queries |
| SemanticQuery.Loop | semantic_query.py:34-71 | the loop answers a prefix of the lines one by one; it stops after `end` (Ended), after an uncaught exception (Crashed), or at end of input, with no earlier reply final |
| SemanticQuery.Repl | semantic_query.py:34-71 | the REPL answers each line with `Respond` for the fixed corpus, id table, embedding model and ranking function, under the same stopping rules |

## Left out

- Reading the CSV with pandas: the input is the sequence of rows, with each id already converted by `str()` (lines 7 and 10).
- The check for `doc_embeddings.pt`, `exit()` and `torch.load` (lines 17-26): file-system I/O. `doc_ids` is a parameter.
- The SentenceTransformer model, `encode`, and the cosine similarity (lines 29 and 47-49): a pretrained foreign model and floating-point numerics. They are the parameter `model`. Scores are exact reals, so NaN and float rounding are not modelled.
- The program does not check that `doc_ids` and the embedding table have the same length; an index past the end of `doc_ids` is the `IndexError` failure.
- Console output: the banner, the emoji, the message texts and the `{score:.4f}` formatting (lines 32, 38, 44, 53-57, 64-71). Each printed message is a `Reply` value.
- Blocking `input()`: console input is a finite sequence of lines, and running out of lines is the stop reason `InputExhausted`. In the program, `input()` raises `EOFError` at that point.
- `str.lower()` beyond ASCII: `Lower` changes only `A`-`Z`. Full Unicode lower-casing changes no character into `e n d q u r y s` or a space, so which command a line is stays the same. The lower-cased line is only compared, never printed, so the arguments are unaffected.
- Which top-5 ranking numpy's non-stable argsort picks among tied scores. `Respond` and `Repl` take the ranking function `rank` as a parameter, and require only that it keeps the top-k promise (`IsRanker`). So what a query prints among tied scores is left open, and so is whether it crashes (`TiesDecideCrash`). `TopIndices` is one such function; it fixes one order among equal scores, because a concrete argsort must pick one.
