// The flashcard pipeline of Mini-Project-II/flashcard.py: the card count
// chosen from the text's word count, the strip/non-blank filter on the
// segmenter's sentences, the ranking and selection, the "Point k" labels and
// the word count of a set of cards. The sentence segmenter and the
// embedding/similarity/PageRank scorer are opaque producers and come in as
// parameters.

module Flashcard {
  import opened PyStr
  import opened Ranking
  import opened Selection

  // ---------------------------------------------------------------------------
  // determine_flashcard_count
  // ---------------------------------------------------------------------------

  /** The card count for a text of n words: 3 below 100 words, 5 below 300,
      7 below 600 and 10 from 600 on. */
  function CountForWords(n: nat): (r: nat)
    ensures r == 3 || r == 5 || r == 7 || r == 10
  {
    if n < 100 then 3
    else if 100 <= n < 300 then 5
    else if 300 <= n < 600 then 7
    else 10
  }

  /** determine_flashcard_count(text): the count for len(text.split()). */
  function DetermineCount(text: string): (r: nat)
    ensures WordCount(text) < 100 ==> r == 3
    ensures 100 <= WordCount(text) < 300 ==> r == 5
    ensures 300 <= WordCount(text) < 600 ==> r == 7
    ensures 600 <= WordCount(text) ==> r == 10
  {
    CountForWords(WordCount(text))
  }

  /** Each of the four counts is chosen on exactly its band of word counts. */
  lemma CountBands(n: nat)
    ensures CountForWords(n) == 3 <==> n < 100
    ensures CountForWords(n) == 5 <==> 100 <= n < 300
    ensures CountForWords(n) == 7 <==> 300 <= n < 600
    ensures CountForWords(n) == 10 <==> 600 <= n
  {
  }

  /** More words never give fewer cards. */
  lemma CountMonotone(m: nat, n: nat)
    requires m <= n
    ensures CountForWords(m) <= CountForWords(n)
  {
  }

  /** A text of words separated by single spaces is counted word for word, so
      its card count is that of its number of words. */
  lemma CountOfJoinedWords(ws: seq<string>)
    requires forall k :: 0 <= k < |ws| ==> ws[k] != [] && NoSpace(ws[k])
    ensures DetermineCount(JoinSpace(ws)) == CountForWords(|ws|)
  {
    WordsJoinSpace(ws);
  }

  /** The card count of two texts joined by any run of whitespace (newlines,
      tabs, several spaces) is that of their word counts added up. */
  lemma CountOfSeparatedTexts(a: string, sp: string, b: string)
    requires sp != [] && AllSpace(sp)
    ensures DetermineCount(a + sp + b) == CountForWords(WordCount(a) + WordCount(b))
  {
    WordsSplit(a, sp, b);
  }

  // ---------------------------------------------------------------------------
  // preprocess_text: the filter after segmentation
  // ---------------------------------------------------------------------------

  /** [s.strip() for s in segments if s.strip()]: the segmenter's sentences,
      stripped, with the blank ones dropped. */
  function Preprocess(segments: seq<string>): (sentences: seq<string>)
    ensures |sentences| <= |segments|
    ensures forall k :: 0 <= k < |sentences| ==> sentences[k] != [] && Stripped(sentences[k])
  {
    if segments == [] then []
    else
      var s := Strip(segments[0]);
      var rest := Preprocess(segments[1..]);
      if s != [] then [s] + rest else rest
  }

  /** Every sentence kept is the stripped form of a segment. */
  lemma {:induction false} PreprocessFrom(segments: seq<string>, k: nat)
    requires k < |Preprocess(segments)|
    ensures exists j :: 0 <= j < |segments| && Preprocess(segments)[k] == Strip(segments[j])
  {
    var s, tail := Strip(segments[0]), segments[1..];
    var rest := Preprocess(tail);
    if s != [] && k == 0 {
      assert Preprocess(segments)[0] == Strip(segments[0]);
    } else {
      var k' := if s != [] then k - 1 else k;
      assert Preprocess(segments)[k] == rest[k'];
      PreprocessFrom(tail, k');
      var j :| 0 <= j < |tail| && rest[k'] == Strip(tail[j]);
      assert tail[j] == segments[j + 1];
    }
  }

  /** Every segment that is not blank is kept, stripped. */
  lemma {:induction false} PreprocessKeeps(segments: seq<string>, j: nat)
    requires j < |segments| && Strip(segments[j]) != []
    ensures Strip(segments[j]) in Preprocess(segments)
  {
    if j > 0 {
      PreprocessKeeps(segments[1..], j - 1);
      assert segments[1..][j - 1] == segments[j];
    }
  }

  /** The filter works segment by segment and keeps document order: the
      sentences of two runs of segments are those of the first run followed
      by those of the second. */
  lemma {:induction false} PreprocessAppend(a: seq<string>, b: seq<string>)
    ensures Preprocess(a + b) == Preprocess(a) + Preprocess(b)
  {
    if a == [] {
      assert a + b == b;
    } else {
      assert (a + b)[0] == a[0];
      assert (a + b)[1..] == a[1..] + b;
      PreprocessAppend(a[1..], b);
    }
  }

  /** A single segment gives its stripped text, unless that is blank. */
  lemma PreprocessOne(s: string)
    ensures Preprocess([s]) == if Strip(s) == [] then [] else [Strip(s)]
  {
    assert [s][1..] == [];
  }

  /** A segment repeated in the text reaches the ranking twice: the filter
      does not deduplicate. */
  lemma PreprocessRepeat(s: string)
    requires Strip(s) != []
    ensures Preprocess([s, s]) == [Strip(s), Strip(s)]
  {
    PreprocessOne(s);
    assert [s, s] == [s] + [s];
    PreprocessAppend([s], [s]);
  }

  /** s occurs in t as a contiguous run of characters: what a sentence found
      by the segmenter is of the text it segments. */
  predicate IsSlice(s: string, t: string) {
    exists i :: 0 <= i <= |t| && IsPrefix(s, t[i..])
  }

  /** A slice of whitespace-only text is whitespace only. */
  lemma SliceOfSpaces(s: string, t: string)
    requires IsSlice(s, t) && AllSpace(t)
    ensures AllSpace(s)
  {
    var i :| 0 <= i <= |t| && IsPrefix(s, t[i..]);
    forall k | 0 <= k < |s| ensures IsSpace(s[k]) {
      assert s[k] == t[i..][k];
    }
  }

  /** Segments cut from an empty or whitespace-only text leave no sentence. */
  lemma BlankTextNoSentences(text: string, segments: seq<string>)
    requires forall j :: 0 <= j < |segments| ==> IsSlice(segments[j], text)
    ensures AllSpace(text) ==> Preprocess(segments) == []
  {
    if AllSpace(text) {
      forall j | 0 <= j < |segments| ensures AllSpace(segments[j]) {
        SliceOfSpaces(segments[j], text);
      }
      PreprocessEmpty(segments);
    }
  }

  /** No sentences at all exactly when every segment is whitespace. */
  lemma {:induction false} PreprocessEmpty(segments: seq<string>)
    ensures Preprocess(segments) == [] <==> forall j :: 0 <= j < |segments| ==> AllSpace(segments[j])
  {
    if segments != [] {
      PreprocessEmpty(segments[1..]);
      StripEmpty(segments[0]);
      if Preprocess(segments) == [] {
        forall j | 0 <= j < |segments| ensures AllSpace(segments[j]) {
          if j > 0 {
            assert segments[j] == segments[1..][j - 1];
          }
        }
      }
    }
  }

  // ---------------------------------------------------------------------------
  // The labelled cards: {f"Point {i+1}": point for i, point in enumerate(selected)}
  // ---------------------------------------------------------------------------

  /** One entry of the flashcard dictionary. */
  datatype Card = Card(title: string, content: string)

  /** f"Point {k}" */
  function Label(k: nat): string {
    "Point " + Decimal(k)
  }

  /** Different positions get different labels. */
  lemma LabelInjective(a: nat, b: nat)
    requires Label(a) == Label(b)
    ensures a == b
  {
    assert Label(a)[6..] == Decimal(a);
    assert Label(b)[6..] == Decimal(b);
    DecimalInjective(a, b);
  }

  /** Labels of different positions differ. */
  lemma LabelsDiffer(n: nat)
    ensures forall a, b :: 1 <= a < b <= n ==> Label(a) != Label(b)
  {
    forall a, b | 1 <= a < b <= n ensures Label(a) != Label(b) {
      if Label(a) == Label(b) {
        LabelInjective(a, b);
      }
    }
  }

  /** The dictionary's entries in insertion order: card k of the selection
      under "Point k+1". Every selected card is kept, in order, under a key
      of its own. */
  function Labelled(contents: seq<string>): (cards: seq<Card>)
    ensures |cards| == |contents|
    ensures forall i :: 0 <= i < |cards| ==> cards[i].content == contents[i]
    ensures DistinctTitles(cards)
  {
    LabelsDiffer(|contents|);
    seq(|contents|, i requires 0 <= i < |contents| => Card(Label(i + 1), contents[i]))
  }

  /** The entry at position i holds the i-th selected card under "Point i+1". */
  lemma LabelledAt(contents: seq<string>, i: nat)
    requires i < |contents|
    ensures Labelled(contents)[i] == Card(Label(i + 1), contents[i])
  {
  }

  /** No two entries share a key. */
  predicate DistinctTitles(cards: seq<Card>) {
    forall i, j :: 0 <= i < j < |cards| ==> cards[i].title != cards[j].title
  }

  /** The dictionary built by inserting the entries in order. */
  function Dict(cards: seq<Card>): map<string, string> {
    if cards == [] then map[]
    else
      var n := |cards|;
      Dict(cards[..n - 1])[cards[n - 1].title := cards[n - 1].content]
  }

  /** The dictionary of entries with distinct keys maps each entry's key to
      its content. */
  lemma {:induction false} DictEntry(cards: seq<Card>, i: nat)
    requires DistinctTitles(cards) && i < |cards|
    ensures cards[i].title in Dict(cards)
    ensures Dict(cards)[cards[i].title] == cards[i].content
  {
    var n := |cards|;
    var init := cards[..n - 1];
    if i < n - 1 {
      DictEntry(init, i);
      assert cards[i].title != cards[n - 1].title;
    }
  }

  /** The position of the last entry with the given key: every key of the
      dictionary is the key of an entry. */
  function EntryOf(cards: seq<Card>, key: string): (i: nat)
    requires key in Dict(cards)
    ensures i < |cards| && cards[i].title == key
  {
    var n := |cards|;
    if cards[n - 1].title == key then n - 1 else EntryOf(cards[..n - 1], key)
  }

  /** It holds one entry per card. */
  lemma {:induction false} DictCount(cards: seq<Card>)
    requires DistinctTitles(cards)
    ensures |Dict(cards)| == |cards|
  {
    if cards != [] {
      var n := |cards|;
      var init := cards[..n - 1];
      DictCount(init);
      assert cards[n - 1].title !in Dict(init) by {
        if cards[n - 1].title in Dict(init) {
          var i := EntryOf(init, cards[n - 1].title);
        }
      }
    }
  }

  /** The dictionary of k selected cards holds exactly k entries: no entry
      overwrites another. */
  lemma LabelledCount(contents: seq<string>)
    ensures |Dict(Labelled(contents))| == |contents|
  {
    DictCount(Labelled(contents));
  }

  /** "Point i+1" maps to the i-th selected card. */
  lemma LabelledLookup(contents: seq<string>, i: nat)
    requires i < |contents|
    ensures Label(i + 1) in Dict(Labelled(contents))
    ensures Dict(Labelled(contents))[Label(i + 1)] == contents[i]
  {
    LabelledAt(contents, i);
    DictEntry(Labelled(contents), i);
  }

  /** Every key is "Point i" for some i from 1 to k. */
  lemma LabelledKeys(contents: seq<string>, key: string)
    requires key in Dict(Labelled(contents))
    ensures exists i :: 1 <= i <= |contents| && key == Label(i)
  {
    var i := EntryOf(Labelled(contents), key);
    LabelledAt(contents, i);
  }

  // ---------------------------------------------------------------------------
  // get_flashcard_word_count
  // ---------------------------------------------------------------------------

  /** sum(len(card.split()) for card in flashcards.values()): no words
      exactly when every card is whitespace only. */
  function FlashcardWordCount(cards: seq<Card>): (n: nat)
    ensures n == 0 <==> forall i :: 0 <= i < |cards| ==> AllSpace(cards[i].content)
  {
    if cards == [] then 0
    else FlashcardWordCount(cards[..|cards| - 1]) + WordCount(cards[|cards| - 1].content)
  }

  /** The total is additive over two runs of entries. */
  lemma {:induction false} FlashcardWordCountAppend(a: seq<Card>, b: seq<Card>)
    ensures FlashcardWordCount(a + b) == FlashcardWordCount(a) + FlashcardWordCount(b)
    decreases |b|
  {
    if b != [] {
      var n := |b|;
      assert (a + b)[..|a + b| - 1] == a + b[..n - 1];
      assert (a + b)[|a + b| - 1] == b[n - 1];
      FlashcardWordCountAppend(a, b[..n - 1]);
    } else {
      assert a + b == a;
    }
  }

  /** The total depends on the contents alone, not on the labels. */
  lemma {:induction false} FlashcardWordCountContents(a: seq<Card>, b: seq<Card>)
    requires |a| == |b|
    requires forall i :: 0 <= i < |a| ==> a[i].content == b[i].content
    ensures FlashcardWordCount(a) == FlashcardWordCount(b)
  {
    if a != [] {
      var n := |a|;
      FlashcardWordCountContents(a[..n - 1], b[..n - 1]);
    }
  }

  /** No cards, no words. */
  lemma NoCardsNoWords()
    ensures FlashcardWordCount([]) == 0
  {
  }

  /** A single card counts the words of its content. */
  lemma SingleCardCount(c: Card)
    ensures FlashcardWordCount([c]) == WordCount(c.content)
  {
    assert [c][..0] == [];
  }

  /** The single card "hello world." counts two words. */
  lemma HelloWorldCount()
    ensures FlashcardWordCount([Card(Label(1), "hello world.")]) == 2
  {
    var ws := ["hello", "world."];
    forall k, i | 0 <= k < |ws| && 0 <= i < |ws[k]| ensures !IsSpace(ws[k][i]) {
      PrintableNotSpace(ws[k][i]);
    }
    WordsJoinSpace(ws);
    assert JoinSpace(ws) == "hello world.";
    SingleCardCount(Card(Label(1), "hello world."));
  }

  // ---------------------------------------------------------------------------
  // generate_flashcards
  // ---------------------------------------------------------------------------

  /** The (score, sentence) tuples ranked as sorted(..., reverse=True). */
  function RankedSentences(sentences: seq<string>, scores: seq<int>): (r: seq<Scored>)
    requires |scores| == |sentences|
    ensures Sorted(r)
    ensures multiset(r) == multiset(Pair(scores, sentences))
  {
    Ranked(Pair(scores, sentences))
  }

  /** generate_flashcards(text): `segments` are the sentences the segmenter
      finds in `text`, each a slice of it, and `score` stands for the
      embedding, similarity and PageRank stages, one score per sentence. */
  method GenerateFlashcards(text: string, segments: seq<string>, score: seq<string> -> seq<int>)
    returns (cards: seq<Card>)
    requires forall ss :: |score(ss)| == |ss|
    requires forall j :: 0 <= j < |segments| ==> IsSlice(segments[j], text)
    ensures AllSpace(text) ==> cards == []
    ensures Preprocess(segments) == [] ==> cards == []
    ensures Preprocess(segments) != [] ==>
      cards == Labelled(Selected(RankedSentences(Preprocess(segments), score(Preprocess(segments))), DetermineCount(text)))
    ensures |cards| <= DetermineCount(text) && |cards| <= |Preprocess(segments)|
    ensures cards == [] <==> Preprocess(segments) == []
  {
    var target := DetermineCount(text);
    var sentences := Preprocess(segments);
    BlankTextNoSentences(text, segments);
    if sentences == [] {
      return [];
    }
    var scores := score(sentences);
    var ranked := RankedSentences(sentences, scores);
    var selected := Select(ranked, target);
    cards := Labelled(selected);
    CardsBounds(sentences, scores, target);
  }

  /** With at least one sentence and a positive target, between one card and
      the target count come out, and no more than there are sentences. */
  lemma CardsBounds(sentences: seq<string>, scores: seq<int>, target: nat)
    requires |scores| == |sentences| && sentences != [] && target > 0
    requires forall k :: 0 <= k < |sentences| ==> sentences[k] != [] && Stripped(sentences[k])
    ensures Selected(RankedSentences(sentences, scores), target) != []
    ensures |Selected(RankedSentences(sentences, scores), target)| <= target
    ensures |Selected(RankedSentences(sentences, scores), target)| <= |sentences|
  {
    var ranked := RankedSentences(sentences, scores);
    assert |ranked| == |sentences| by {
      assert |multiset(ranked)| == |multiset(Pair(scores, sentences))|;
    }
    RankedNonBlank(sentences, scores);
    SelectedNonEmpty(ranked, target, 0);
  }

  /** A non-empty result has a positive word count: every card ends in ".",
      which is not whitespace. */
  lemma GeneratedCardsHaveWords(sentences: seq<string>, scores: seq<int>, target: nat)
    requires |scores| == |sentences| && sentences != [] && target > 0
    requires forall k :: 0 <= k < |sentences| ==> sentences[k] != [] && Stripped(sentences[k])
    ensures FlashcardWordCount(Labelled(Selected(RankedSentences(sentences, scores), target))) > 0
  {
    var selected := Selected(RankedSentences(sentences, scores), target);
    CardsBounds(sentences, scores, target);
    SelectedFromRanked(RankedSentences(sentences, scores), target, 0);
    var c := Labelled(selected)[0].content;
    assert c == selected[0];
    PrintableNotSpace(c[|c| - 1]);
    assert !AllSpace(c);
  }

  /** The first ranked sentence is not blank after stripping, since every
      preprocessed sentence is stripped and non-empty. */
  lemma RankedNonBlank(sentences: seq<string>, scores: seq<int>)
    requires |scores| == |sentences| && sentences != []
    requires forall k :: 0 <= k < |sentences| ==> sentences[k] != [] && Stripped(sentences[k])
    ensures RankedSentences(sentences, scores) != []
    ensures Strip(RankedSentences(sentences, scores)[0].text) != []
  {
    var r := RankedSentences(sentences, scores);
    var p := Pair(scores, sentences);
    assert p[0] in multiset(r);
    assert r[0] in multiset(p);
    var k :| 0 <= k < |p| && p[k] == r[0];
    StripStripped(sentences[k]);
  }
}
