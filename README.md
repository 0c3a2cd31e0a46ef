# Flashcard selection, modelled in Dafny

This project models the flashcard pipeline of `Mini-Project-II/flashcard.py`. The pipeline turns study text into at most ten flashcards built from its most representative sentences. The model covers:

- how many cards the pipeline asks for, from the word count of the text (`determine_flashcard_count`);
- the filter that keeps a segmenter sentence only if its stripped text is non-empty (`preprocess_text`);
- the ranking of `(score, sentence)` tuples with `sorted(..., reverse=True)`;
- the selection loop, which strips each candidate, skips blank and already-used ones, cuts the rest to at most three `". "`-separated pieces ending in `"."`, and stops at the target count;
- the `"Point k"` labels of the resulting dictionary;
- `get_flashcard_word_count`.

The sentence segmenter and the scorer are opaque producers, so they are parameters here. The scorer stands for the embedding, cosine-similarity and PageRank stages, and gives one integer score per sentence.

Modules:

- `PyStr` holds the Python string builtins the pipeline uses:
  - `str.isspace` (the Unicode whitespace set Python uses, as code-point ranges);
  - `strip`;
  - `split()` and `split('. ')`;
  - `'. '.join`;
  - `str(int)`;
  - string `<=`.

  It also defines `' '.join`, which the pipeline does not call. It is there only to state that `split()` gives back words joined by single spaces.
- `Ranking` holds Python's tuple order and the sort, written as an insertion sort. It proves that any two sorted arrangements of the same tuples are equal, so the result does not depend on which sorting algorithm is used.
- `Selection` holds the truncation and the selection loop. The `while` loop with its `break` is the method `SelectWith`, proved against the recursive specification `AcceptedUpTo`. It is written over any stripping and truncation function, and its invariant is that `used_phrases` holds exactly the cards accepted so far. `Select` instantiates it with `strip()` and the truncation of lines 85-87, so `Select` returns exactly `Selected`.
- `Flashcard` holds:
  - the card count;
  - the preprocessing filter;
  - the labelled dictionary, as the ordered list of its entries together with its `map` view `Dict`;
  - the word count;
  - the method `GenerateFlashcards`, which runs the whole pipeline.

Two behaviours of the code are modelled as written. A reader might expect equal scores to keep document order and duplicates to be removed after truncation; the code does neither:

- **Ties in the ranking.** Tuples are compared by score, then by sentence text. So sentences with equal scores come out in descending text order, not in document order (`Ranking.TiesByTextDescending`).
- **The dedup test compares different forms.** It checks the stripped, untruncated sentence (line 84) against `used_phrases`, which holds the truncated cards (line 89). A repeated sentence that truncation changes is therefore not deduplicated (`Selection.RepeatNotDeduplicated`). A sentence that truncation leaves unchanged (it already ends in `"."` and has at most three pieces) is the source of at most one card, however often it is repeated among other sentences (`Selection.SelectedSentenceOnce`). Cards can still repeat in that case, depending on order. If a sentence ranked first truncates to a card that a later, different sentence also truncates to, both become cards (`Selection.DifferentSourcesSameCard`). If instead the later sentence's stripped text is that card, it is skipped (`Selection.SameCardSkipped`). When every sentence is of that kind, the cards are pairwise distinct (`Selection.SelectedDistinct`). Examples of sentences that truncation changes: one that lacks a final `"."`, or one with more than three pieces.

## Model

| member | source | states |
|---|---|---|
| Flashcard.CountForWords | Mini-Project-II/flashcard.py:32-39 | the card count is always one of 3, 5, 7 or 10 |
| Flashcard.CountBands | Mini-Project-II/flashcard.py:32-39 | the count is 3 exactly below 100 words, 5 exactly on [100,300), 7 exactly on [300,600) and 10 exactly from 600 on |
| Flashcard.CountMonotone | Mini-Project-II/flashcard.py:30-39 | more words never give fewer cards |
| Flashcard.DetermineCount | Mini-Project-II/flashcard.py:30-39 | the count is 3 below 100 words of `text.split()`, 5 on [100,300), 7 on [300,600) and 10 from 600 on |
| Flashcard.CountOfSeparatedTexts | Mini-Project-II/flashcard.py:30-31 | two texts joined by any run of whitespace get the card count for their word counts added up |
| Flashcard.CountOfJoinedWords | Mini-Project-II/flashcard.py:30-31 | a text of n words separated by single spaces gets the card count for n words |
| Flashcard.Preprocess | Mini-Project-II/flashcard.py:27 | the sentences kept are no more than the segments, and each is non-empty and has no whitespace at either end |
| Flashcard.PreprocessFrom | Mini-Project-II/flashcard.py:27 | every kept sentence is the stripped text of some segment |
| Flashcard.PreprocessKeeps | Mini-Project-II/flashcard.py:27 | every segment whose stripped text is non-empty is kept, stripped |
| Flashcard.PreprocessAppend | Mini-Project-II/flashcard.py:27 | the filter keeps document order: the sentences of two runs of segments are those of the first followed by those of the second |
| Flashcard.PreprocessOne | Mini-Project-II/flashcard.py:27 | a single segment gives its stripped text, or nothing when that is blank |
| Flashcard.PreprocessRepeat | Mini-Project-II/flashcard.py:27 | a non-blank segment that occurs twice gives two sentences: the filter does not deduplicate |
| Flashcard.PreprocessEmpty | Mini-Project-II/flashcard.py:27 | no sentences are kept exactly when every segment is whitespace only |
| Ranking.Insert | Mini-Project-II/flashcard.py:75 | inserting a tuple into a sorted list keeps it sorted and adds exactly that tuple |
| Ranking.Ranked | Mini-Project-II/flashcard.py:75 | the ranked list is ordered non-increasingly by (score, text) and is a permutation of the tuples |
| Ranking.BeforeTotal | Mini-Project-II/flashcard.py:75 | any two tuples are comparable |
| Ranking.BeforeTransitive | Mini-Project-II/flashcard.py:75 | the tuple order is transitive |
| Ranking.BeforeAntisymmetric | Mini-Project-II/flashcard.py:75 | tuples that are each before the other are equal |
| Ranking.SortedUnique | Mini-Project-II/flashcard.py:75 | two sorted permutations of the same tuples are the same list, so the ranking is determined by the tuples alone |
| Ranking.TiesByTextDescending | Mini-Project-II/flashcard.py:75 | with equal scores, "banana" is ranked before "apple" even though it comes later in the document |
| Flashcard.RankedSentences | Mini-Project-II/flashcard.py:75 | the (score, sentence) pairs are ranked sorted and as a permutation of the enumerated pairs |
| Flashcard.RankedNonBlank | Mini-Project-II/flashcard.py:75 | after preprocessing, the top-ranked sentence is not blank once stripped |
| Selection.FirstThreeCut | Mini-Project-II/flashcard.py:85 | the first three pieces are a prefix of the sentence; the sentence is unchanged with at most three pieces, and otherwise is cut exactly at the third ". " |
| Selection.Truncate | Mini-Project-II/flashcard.py:85-87 | every card ends with "." |
| Selection.TruncateShape | Mini-Project-II/flashcard.py:83-87 | a card is a non-empty prefix of its stripped sentence that ends in a non-space character and covers the first three pieces except their trailing whitespace, followed by "." exactly when that prefix does not already end in one |
| Selection.TruncateKeepsShort | Mini-Project-II/flashcard.py:85-87 | a stripped sentence that ends in "." and has at most three pieces becomes its own card |
| Selection.TruncateChangesUnstopped | Mini-Project-II/flashcard.py:86-87 | a sentence not ending in "." is changed by truncation |
| Selection.TruncateChangesLong | Mini-Project-II/flashcard.py:85 | a sentence of more than three pieces gives a strictly shorter card |
| Selection.Accept | Mini-Project-II/flashcard.py:81-89 | one loop step appends at most one card, the candidate's truncation, and appends it exactly when the target is not yet reached and the stripped candidate is non-blank and not already a card |
| Selection.Selected | Mini-Project-II/flashcard.py:80-89 | the cards after walking the ranked list are never more than the target count nor than ranked sentences |
| Selection.Select | Mini-Project-II/flashcard.py:77-89 | the loop returns exactly the cards of the specification `Selected` |
| Selection.SelectWith | Mini-Project-II/flashcard.py:77-89 | for any stripping and truncation functions, the loop with its `used_phrases` set returns the cards of the step-by-step specification; `used_phrases` holds exactly the cards |
| Selection.AcceptedStaysFull | Mini-Project-II/flashcard.py:81-82 | once the target is reached, later candidates change nothing |
| Selection.AcceptedPrefix | Mini-Project-II/flashcard.py:88 | cards are only appended: walking fewer candidates gives a prefix of the cards |
| Selection.AcceptedOrigin | Mini-Project-II/flashcard.py:80-88 | each card is the truncated form of a non-blank candidate, and the source positions of the cards increase |
| Selection.SelectedFromRanked | Mini-Project-II/flashcard.py:83-88 | every card ends with "." and is the truncation of a ranked sentence that is non-blank after stripping |
| Selection.AcceptedOnce | Mini-Project-II/flashcard.py:84-89 | a stripped text that truncation leaves unchanged is the source of at most one card, whatever the other candidates |
| Selection.SelectedSources | Mini-Project-II/flashcard.py:80-88 | gives, for each card, the position of the ranked sentence it came from: that sentence is non-blank once stripped, the card is its truncation, and the positions increase, so the cards appear in ranked order |
| Selection.SelectedSentenceOnce | Mini-Project-II/flashcard.py:84-89 | a sentence that truncation leaves unchanged, repeated any number of times among any other sentences, is the source of at most one card |
| Selection.SelectedExhausts | Mini-Project-II/flashcard.py:83-89 | if fewer cards than the target come out, every ranked sentence was examined: it is blank, or its stripped text or its truncation is a card |
| Selection.SelectedNonEmpty | Mini-Project-II/flashcard.py:81-88 | a non-blank ranked sentence and a positive target give at least one card |
| Selection.SelectedSingle | Mini-Project-II/flashcard.py:80-88 | one non-blank sentence yields exactly its own card |
| Selection.SelectedDistinct | Mini-Project-II/flashcard.py:84-89 | when every sentence already ends in "." and has at most three pieces, the cards are pairwise distinct, so a repeated sentence gives one card |
| Selection.DifferentSourcesSameCard | Mini-Project-II/flashcard.py:84-89 | of two ranked sentences, non-blank once stripped and with the same truncation T, where the second's stripped text is not T, both become cards: the result is [T, T] |
| Selection.SameCardSkipped | Mini-Project-II/flashcard.py:84-89 | of two ranked sentences where the second's stripped text is the first's card T, only one card comes out: the result is [T] |
| Selection.RepeatNotDeduplicated | Mini-Project-II/flashcard.py:84-89 | a repeated sentence that truncation changes gives the same card twice |
| Flashcard.LabelInjective | Mini-Project-II/flashcard.py:92 | different positions give different "Point k" labels |
| Flashcard.LabelsDiffer | Mini-Project-II/flashcard.py:92 | the labels "Point 1".."Point k" are pairwise distinct |
| Flashcard.Labelled | Mini-Project-II/flashcard.py:92 | the entries keep every selected card, in order, each under a key of its own |
| Flashcard.DictEntry | Mini-Project-II/flashcard.py:92 | in a dictionary built from entries with distinct keys, each entry's key maps to its content |
| Flashcard.DictCount | Mini-Project-II/flashcard.py:92 | a dictionary built from entries with distinct keys has one entry per card |
| Flashcard.LabelledCount | Mini-Project-II/flashcard.py:92 | the dictionary of k cards has exactly k entries |
| Flashcard.LabelledLookup | Mini-Project-II/flashcard.py:92 | "Point i+1" maps to the i-th accepted card |
| Flashcard.LabelledKeys | Mini-Project-II/flashcard.py:92 | every key is "Point i" for some i from 1 to k, so the labels have no gaps |
| Flashcard.BlankTextNoSentences | Mini-Project-II/flashcard.py:24-28 | segments that are slices of an empty or whitespace-only text leave no sentence |
| Flashcard.GenerateFlashcards | Mini-Project-II/flashcard.py:41-93 | an empty or whitespace-only text gives the empty dictionary, and so does any input that leaves no sentence; otherwise the cards are the labelled selection from the ranked sentences, with the count chosen from the text, and there are between one and the target count of them, and no more than sentences |
| Flashcard.CardsBounds | Mini-Project-II/flashcard.py:75-93 | with sentences present and a positive target, at least one and at most the target count of cards, and no more than sentences |
| Flashcard.FlashcardWordCount | Mini-Project-II/flashcard.py:95-96 | the total is 0 exactly when every card's content is whitespace only |
| Flashcard.GeneratedCardsHaveWords | Mini-Project-II/flashcard.py:85-96 | a non-empty set of generated cards has a positive word count, since every card ends in "." |
| Flashcard.FlashcardWordCountAppend | Mini-Project-II/flashcard.py:95-96 | the word total is additive over two runs of cards |
| Flashcard.FlashcardWordCountContents | Mini-Project-II/flashcard.py:95-96 | the word total depends on the card contents alone, not on the labels |
| Flashcard.NoCardsNoWords | Mini-Project-II/flashcard.py:95-96 | no cards give a total of 0 |
| Flashcard.SingleCardCount | Mini-Project-II/flashcard.py:95-96 | a single card counts the words of its content |
| Flashcard.HelloWorldCount | Mini-Project-II/flashcard.py:95-96 | the single card "hello world." counts 2 words |
| PyStr.Strip | Mini-Project-II/flashcard.py:27 | the result of strip() has no whitespace at either end |
| PyStr.StripSlice | Mini-Project-II/flashcard.py:83 | strip() returns a contiguous slice of its input, and removes only whitespace on each side |
| PyStr.StripStripped | Mini-Project-II/flashcard.py:83 | strip() leaves a string with no whitespace at either end unchanged |
| PyStr.StripEmpty | Mini-Project-II/flashcard.py:27 | strip() gives the empty string exactly when the input is all whitespace |
| PyStr.Words | Mini-Project-II/flashcard.py:31 | the words of split() are non-empty and contain no whitespace |
| PyStr.WordCount | Mini-Project-II/flashcard.py:31 | `len(text.split())` is 0 exactly when the text is all whitespace |
| PyStr.WordsEmpty | Mini-Project-II/flashcard.py:31 | split() finds no word exactly when the text is all whitespace |
| PyStr.WordsSplit | Mini-Project-II/flashcard.py:31 | split() splits at every run of whitespace of any kind and length; the run itself gives no word |
| PyStr.WordsJoinSpace | Mini-Project-II/flashcard.py:31 | splitting words joined by single spaces gives the words back |
| PyStr.WordsKeepText | Mini-Project-II/flashcard.py:96 | split() loses only whitespace: its words, concatenated, are the non-whitespace characters of the text |
| PyStr.Pieces | Mini-Project-II/flashcard.py:85 | split('. ') gives at least one piece, and the first piece is a prefix of the text |
| PyStr.PiecesNoSep | Mini-Project-II/flashcard.py:85 | no piece of split('. ') contains ". " |
| PyStr.JoinDotPieces | Mini-Project-II/flashcard.py:85 | joining the pieces of split('. ') with ". " gives the text back |
| PyStr.PiecesUnique | Mini-Project-II/flashcard.py:85 | any pieces free of ". " that join to a text are the pieces split('. ') returns for it |
| PyStr.JoinDotPrefix | Mini-Project-II/flashcard.py:85 | joining the first k pieces gives a prefix of joining them all |
| PyStr.DecimalInjective | Mini-Project-II/flashcard.py:92 | different numbers print differently |
| PyStr.LexTotal | Mini-Project-II/flashcard.py:75 | string comparison is total |
| PyStr.LexAntisymmetric | Mini-Project-II/flashcard.py:75 | strings that are each <= the other are equal |
| PyStr.LexTransitive | Mini-Project-II/flashcard.py:75 | string comparison is transitive |

## Left out

- Sentence segmentation (`spacy.load`, `doc.sents`, lines 25-26) is an external linguistic model. Its output is the parameter `segments` of `GenerateFlashcards`. The only thing assumed of it is that each segment is a contiguous slice of the text.
- `load_embedder` and its SentenceTransformer/TensorFlow fallback (lines 8-22, 48-70) are not modelled. They consist of model loading, exceptions and foreign library calls.
- Mean pooling, `cosine_similarity`, `nx.from_numpy_array` and `nx.pagerank` (lines 53, 61-68, 72-73) are not modelled. They are floating-point numerics in foreign libraries. They are replaced by the parameter `score`, which gives one integer per sentence. Python compares floats and integers the same way in the tuple sort, so integers keep the ranking's ordering behaviour.
- The `else: return {}` branch (lines 69-70) is not modelled. It depends only on the runtime type of the loaded embedder.
- Flashcard.GenerateFlashcards: returns the dictionary as the ordered list of its `(label, content)` entries, that is, its insertion order. `Dict` gives its `map` view, and `LabelledCount`, `LabelledLookup` and `LabelledKeys` relate the two.
- Selection.SelectWith: takes the stripping and truncation as function parameters. `Select` instantiates them with `str.strip()` and the truncation of lines 85-87, so its contract is the one for the source.
- `Mini-Project-II/image_processing.py` (OCR), `Mini-Project-II/text_to_speech.py` (speech synthesis), `Mini-Project-II/app.py` and `Mini-Project-II/main.py` are not part of this model. They hold the user interface, image and file I/O, network calls and the shuffle of the cards.
