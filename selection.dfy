// The selection loop of generate_flashcards: walk the ranked list, strip each
// candidate, skip empty and already-used ones, cut the rest to at most three
// ". "-separated pieces ending in ".", and stop at the target count.

module Selection {
  import opened PyStr
  import opened Ranking

  predicate EndsWithDot(s: string) {
    s != [] && s[|s| - 1] == '.'
  }

  /** '. '.join(cleaned.split('. ')[:3]) */
  function FirstThree(cleaned: string): string {
    var ps := Pieces(cleaned);
    JoinDot(ps[..if |ps| < 3 then |ps| else 3])
  }

  /** The first three pieces are a prefix of the text; the text is cut only
      when it has more than three pieces, and then exactly at the third
      separator. */
  lemma FirstThreeCut(c: string)
    ensures IsPrefix(FirstThree(c), c)
    ensures |Pieces(c)| <= 3 ==> FirstThree(c) == c
    ensures |Pieces(c)| > 3 ==> c == FirstThree(c) + ". " + JoinDot(Pieces(c)[3..])
  {
    var ps := Pieces(c);
    JoinDotPieces(c);
    if |ps| <= 3 {
      assert ps[..|ps|] == ps;
    } else {
      JoinDotPrefix(ps, 3);
      var qs := ps[..3];
      assert JoinDot(qs[1..][1..]) == ps[2];
      assert JoinDot(qs[1..]) == ps[1] + ". " + ps[2];
      assert JoinDot(ps[1..][1..]) == ps[2] + ". " + JoinDot(ps[3..]) by {
        assert ps[1..][1..] == ps[2..] && ps[2..][1..] == ps[3..];
      }
      assert JoinDot(ps[1..]) == ps[1] + ". " + JoinDot(ps[1..][1..]);
    }
  }

  /** The card made from a stripped candidate (lines 85-87): its first three
      pieces, stripped, with "." appended unless already there. */
  function Truncate(cleaned: string): (r: string)
    ensures EndsWithDot(r)
  {
    var t := Strip(FirstThree(cleaned));
    if EndsWithDot(t) then t else t + "."
  }

  /** A card is a non-empty prefix of its stripped sentence that ends in a
      non-space character and reaches to the end of the first three pieces
      but for trailing whitespace, followed by "." exactly when that prefix
      does not already end in one. */
  lemma TruncateShape(c: string)
    requires c != [] && Stripped(c)
    ensures exists m :: 0 < m <= |c| && !IsSpace(c[m - 1]) &&
              IsPrefix(c[..m], FirstThree(c)) && AllSpace(FirstThree(c)[m..]) &&
              Truncate(c) == (if EndsWithDot(c[..m]) then c[..m] else c[..m] + ".")
  {
    FirstThreeCut(c);
    var h := FirstThree(c);
    assert h != [] by {
      if |Pieces(c)| > 3 {
        assert |h + ". " + JoinDot(Pieces(c)[3..])| >= 2;
      }
    }
    assert h[0] == c[0];
    assert LeadLen(h) == 0;
    assert TrimLeft(h) == h;
    TrailLenSpaces(h);
    var m := |h| - TrailLen(h);
    assert m > 0;
    assert Strip(h) == h[..m];
    assert h[..m] == c[..m];
    assert !IsSpace(c[m - 1]) by {
      assert c[m - 1] == h[m - 1];
    }
  }

  /** A stripped sentence of at most three pieces that already ends in "."
      is its own card. */
  lemma TruncateKeepsShort(c: string)
    requires Stripped(c) && EndsWithDot(c) && |Pieces(c)| <= 3
    ensures Truncate(c) == c
  {
    FirstThreeCut(c);
    StripStripped(c);
  }

  /** A ranked sentence as the loop sees it: its stripped text `cleaned`
      (line 83) and the card `trimmed` it would become (lines 85-87). */
  datatype Candidate = Candidate(cleaned: string, trimmed: string)

  /** The candidates of the ranked list when `clean` strips a sentence and
      `trim` truncates it. */
  function Prepared(ranked: seq<Scored>, clean: string -> string, trim: string -> string): (cs: seq<Candidate>)
    ensures |cs| == |ranked|
  {
    seq(|ranked|, i requires 0 <= i < |ranked| => Candidate(clean(ranked[i].text), trim(clean(ranked[i].text))))
  }

  /** The candidates of the ranked list, with str.strip() and the
      truncation of lines 85-87. */
  function Candidates(ranked: seq<Scored>): (cs: seq<Candidate>)
    ensures |cs| == |ranked|
  {
    Prepared(ranked, Strip, Truncate)
  }

  /** One pass of the loop body (lines 81-89) on the cards accepted so far:
      stop adding once the target is reached, skip a blank candidate or one
      whose stripped text is already a card, accept the rest. */
  function Accept(acc: seq<string>, c: Candidate, target: nat): (r: seq<string>)
    ensures r == acc || r == acc + [c.trimmed]
    ensures r != acc <==> |acc| < target && c.cleaned != [] && c.cleaned !in acc
  {
    if |acc| >= target then acc
    else if c.cleaned != [] && c.cleaned !in acc then acc + [c.trimmed]
    else acc
  }

  /** The cards accepted after walking the first i candidates. */
  function AcceptedUpTo(cs: seq<Candidate>, target: nat, i: nat): seq<string>
    requires i <= |cs|
  {
    if i == 0 then [] else Accept(AcceptedUpTo(cs, target, i - 1), cs[i - 1], target)
  }

  /** The cards accepted after walking the whole ranked list: never more
      than the target count nor than ranked sentences. */
  function Selected(ranked: seq<Scored>, target: nat): (r: seq<string>)
    ensures |r| <= target && |r| <= |ranked|
  {
    AcceptedBounds(Candidates(ranked), target, |ranked|);
    AcceptedUpTo(Candidates(ranked), target, |ranked|)
  }

  /** The selection loop (lines 77-89). */
  method Select(ranked: seq<Scored>, target: nat) returns (selected: seq<string>)
    ensures selected == Selected(ranked, target)
  {
    selected := SelectWith(ranked, target, Strip, Truncate);
  }

  /** The loop itself, written once for any stripping `clean` and truncation
      `trim` so that its proof does not unfold the text operations; `used` is
      used_phrases. */
  method SelectWith(ranked: seq<Scored>, target: nat, clean: string -> string, trim: string -> string)
    returns (selected: seq<string>)
    ensures selected == AcceptedUpTo(Prepared(ranked, clean, trim), target, |ranked|)
  {
    ghost var cs := Prepared(ranked, clean, trim);
    selected := [];
    var used: set<string> := {};
    var i := 0;
    while i < |ranked|
      invariant i <= |ranked|
      invariant selected == AcceptedUpTo(cs, target, i)
      invariant forall x :: x in used <==> x in selected
    {
      if |selected| >= target {
        AcceptedStaysFull(cs, target, i, |ranked|);
        break;
      }
      var cleaned := clean(ranked[i].text);
      if cleaned != [] && cleaned !in used {
        var trimmed := trim(cleaned);
        selected := selected + [trimmed];
        used := used + {trimmed};
      }
      i := i + 1;
    }
  }

  /** The candidate at position i is the i-th ranked sentence, stripped, and
      its truncation. */
  lemma CandidateAt(ranked: seq<Scored>, i: nat)
    requires i < |ranked|
    ensures Candidates(ranked)[i].cleaned == Strip(ranked[i].text)
    ensures Candidates(ranked)[i].trimmed == Truncate(Strip(ranked[i].text))
  {
  }

  /** Once the target is reached, later candidates change nothing. */
  lemma {:induction false} AcceptedStaysFull(cs: seq<Candidate>, target: nat, i: nat, j: nat)
    requires i <= j <= |cs|
    requires |AcceptedUpTo(cs, target, i)| >= target
    ensures AcceptedUpTo(cs, target, j) == AcceptedUpTo(cs, target, i)
    decreases j
  {
    if i < j {
      AcceptedStaysFull(cs, target, i, j - 1);
    }
  }

  /** Walking fewer candidates gives a prefix of the cards: cards are only
      ever appended, so they come out in ranked order. */
  lemma {:induction false} AcceptedPrefix(cs: seq<Candidate>, target: nat, i: nat, j: nat)
    requires i <= j <= |cs|
    ensures IsPrefix(AcceptedUpTo(cs, target, i), AcceptedUpTo(cs, target, j))
    decreases j
  {
    if i < j {
      AcceptedPrefix(cs, target, i, j - 1);
    }
  }

  /** Never more cards than the target count nor than candidates walked. */
  lemma {:induction false} AcceptedBounds(cs: seq<Candidate>, target: nat, i: nat)
    requires i <= |cs|
    ensures |AcceptedUpTo(cs, target, i)| <= target
    ensures |AcceptedUpTo(cs, target, i)| <= i
  {
    if i > 0 {
      AcceptedBounds(cs, target, i - 1);
    }
  }

  /** The positions, among the candidates walked, of those that became
      cards, in the order they were accepted. */
  function AcceptedIndices(cs: seq<Candidate>, target: nat, i: nat): (src: seq<nat>)
    requires i <= |cs|
    ensures forall k :: 0 <= k < |src| ==> src[k] < i
  {
    if i == 0 then []
    else
      var acc := AcceptedUpTo(cs, target, i - 1);
      var prev := AcceptedIndices(cs, target, i - 1);
      if |acc| < target && cs[i - 1].cleaned != [] && cs[i - 1].cleaned !in acc
      then prev + [i - 1] else prev
  }

  /** Every card is the trimmed form of a non-blank candidate among those
      walked, and the cards come out in the candidates' order: card k comes
      from candidate AcceptedIndices(..)[k], and those positions increase. */
  lemma {:induction false} AcceptedOrigin(cs: seq<Candidate>, target: nat, i: nat)
    requires i <= |cs|
    ensures |AcceptedIndices(cs, target, i)| == |AcceptedUpTo(cs, target, i)|
    ensures forall k :: 0 <= k < |AcceptedIndices(cs, target, i)| ==>
      AcceptedIndices(cs, target, i)[k] < i &&
      cs[AcceptedIndices(cs, target, i)[k]].cleaned != [] &&
      AcceptedUpTo(cs, target, i)[k] == cs[AcceptedIndices(cs, target, i)[k]].trimmed
    ensures forall k, l :: 0 <= k < l < |AcceptedIndices(cs, target, i)| ==>
      AcceptedIndices(cs, target, i)[k] < AcceptedIndices(cs, target, i)[l]
  {
    if i > 0 {
      AcceptedOrigin(cs, target, i - 1);
    }
  }

  /** A stripped text that truncation leaves unchanged is the source of at
      most one card, whatever the other candidates are: once accepted, it is
      a card, so the dedup test rejects it from then on. */
  lemma {:induction false} AcceptedOnce(cs: seq<Candidate>, target: nat, i: nat, x: string)
    requires i <= |cs|
    requires forall j :: 0 <= j < |cs| && cs[j].cleaned == x ==> cs[j].trimmed == x
    ensures forall k, l :: 0 <= k < l < |AcceptedIndices(cs, target, i)| ==>
      cs[AcceptedIndices(cs, target, i)[k]].cleaned != x || cs[AcceptedIndices(cs, target, i)[l]].cleaned != x
  {
    if i > 0 {
      AcceptedOnce(cs, target, i - 1, x);
      AcceptedOrigin(cs, target, i - 1);
      var acc, prev := AcceptedUpTo(cs, target, i - 1), AcceptedIndices(cs, target, i - 1);
      if |acc| < target && cs[i - 1].cleaned == x && x !in acc {
        forall k | 0 <= k < |prev| ensures cs[prev[k]].cleaned != x {
          assert acc[k] == cs[prev[k]].trimmed;
        }
      }
    }
  }

  /** No candidate is skipped for any reason but being blank or already a
      card: while fewer cards than the target have come out, every candidate
      walked is blank, equals a card, or has its trimmed form among the
      cards. */
  lemma {:induction false} AcceptedExhausts(cs: seq<Candidate>, target: nat, i: nat)
    requires i <= |cs|
    requires |AcceptedUpTo(cs, target, i)| < target
    ensures forall j :: 0 <= j < i ==>
      cs[j].cleaned == [] || cs[j].cleaned in AcceptedUpTo(cs, target, i) || cs[j].trimmed in AcceptedUpTo(cs, target, i)
  {
    if i > 0 {
      var prev, cur := AcceptedUpTo(cs, target, i - 1), AcceptedUpTo(cs, target, i);
      AcceptedExhausts(cs, target, i - 1);
      assert forall x :: x in prev ==> x in cur;
    }
  }

  /** At least one card comes out when some candidate is non-blank and the
      target is positive. */
  lemma {:induction false} AcceptedNonEmpty(cs: seq<Candidate>, target: nat, i: nat, j: nat)
    requires target > 0
    requires j < i <= |cs| && cs[j].cleaned != []
    ensures AcceptedUpTo(cs, target, i) != []
  {
    if j < i - 1 {
      AcceptedNonEmpty(cs, target, i - 1, j);
    }
  }

  /** When every candidate's trimmed form is its stripped text, the cards are
      pairwise distinct: such a sentence, however often repeated, gives one
      card. */
  lemma {:induction false} AcceptedDistinct(cs: seq<Candidate>, target: nat, i: nat)
    requires i <= |cs|
    requires forall j :: 0 <= j < |cs| ==> cs[j].trimmed == cs[j].cleaned
    ensures forall k, l :: 0 <= k < l < |AcceptedUpTo(cs, target, i)| ==>
      AcceptedUpTo(cs, target, i)[k] != AcceptedUpTo(cs, target, i)[l]
  {
    if i > 0 {
      AcceptedDistinct(cs, target, i - 1);
    }
  }

  // ---------------------------------------------------------------------------
  // The same facts stated on the ranked list
  // ---------------------------------------------------------------------------

  /** Every card ends with "." and is the truncation of some ranked sentence
      that is not blank after stripping. */
  lemma SelectedFromRanked(ranked: seq<Scored>, target: nat, k: nat)
    requires k < |Selected(ranked, target)|
    ensures EndsWithDot(Selected(ranked, target)[k])
    ensures exists j :: 0 <= j < |ranked| && Strip(ranked[j].text) != [] &&
                        Selected(ranked, target)[k] == Truncate(Strip(ranked[j].text))
  {
    var cs := Candidates(ranked);
    AcceptedOrigin(cs, target, |ranked|);
    var j := AcceptedIndices(cs, target, |ranked|)[k];
    CandidateAt(ranked, j);
  }

  /** The positions in the ranked list of the sentences that became cards:
      card k is the truncation of the stripped sentence at position
      SelectedSources(..)[k], and the positions increase. */
  function SelectedSources(ranked: seq<Scored>, target: nat): (src: seq<nat>)
    ensures |src| == |Selected(ranked, target)|
    ensures forall k :: 0 <= k < |src| ==>
      src[k] < |ranked| && Strip(ranked[src[k]].text) != [] &&
      Selected(ranked, target)[k] == Truncate(Strip(ranked[src[k]].text))
    ensures forall k, l :: 0 <= k < l < |src| ==> src[k] < src[l]
  {
    AcceptedOrigin(Candidates(ranked), target, |ranked|);
    AcceptedIndices(Candidates(ranked), target, |ranked|)
  }

  /** A sentence that truncation leaves unchanged, repeated any number of
      times among any other sentences, is the source of at most one card. */
  lemma SelectedSentenceOnce(ranked: seq<Scored>, target: nat, x: string)
    requires forall j :: 0 <= j < |ranked| && Strip(ranked[j].text) == x ==> Truncate(x) == x
    ensures forall k, l :: 0 <= k < l < |SelectedSources(ranked, target)| ==>
      Strip(ranked[SelectedSources(ranked, target)[k]].text) != x ||
      Strip(ranked[SelectedSources(ranked, target)[l]].text) != x
  {
    var cs := Candidates(ranked);
    forall j | 0 <= j < |cs| && cs[j].cleaned == x ensures cs[j].trimmed == x {
      CandidateAt(ranked, j);
    }
    AcceptedOnce(cs, target, |ranked|, x);
    forall k | 0 <= k < |SelectedSources(ranked, target)|
      ensures Strip(ranked[SelectedSources(ranked, target)[k]].text) == cs[SelectedSources(ranked, target)[k]].cleaned
    {
      CandidateAt(ranked, SelectedSources(ranked, target)[k]);
    }
  }

  /** If fewer cards than the target come out, every ranked sentence was
      examined: each is blank after stripping, or its stripped text or its
      truncation is a card. */
  lemma SelectedExhausts(ranked: seq<Scored>, target: nat, j: nat)
    requires |Selected(ranked, target)| < target
    requires j < |ranked|
    ensures Strip(ranked[j].text) == [] || Strip(ranked[j].text) in Selected(ranked, target) ||
            Truncate(Strip(ranked[j].text)) in Selected(ranked, target)
  {
    var cs := Candidates(ranked);
    AcceptedExhausts(cs, target, |ranked|);
    CandidateAt(ranked, j);
  }

  /** Some ranked sentence that is not blank and a positive target give at
      least one card. */
  lemma SelectedNonEmpty(ranked: seq<Scored>, target: nat, j: nat)
    requires target > 0
    requires j < |ranked| && Strip(ranked[j].text) != []
    ensures Selected(ranked, target) != []
  {
    var cs := Candidates(ranked);
    CandidateAt(ranked, j);
    AcceptedNonEmpty(cs, target, |ranked|, j);
  }

  /** A single sentence yields exactly its own card. */
  lemma SelectedSingle(x: Scored, target: nat)
    requires target > 0 && Strip(x.text) != []
    ensures Selected([x], target) == [Truncate(Strip(x.text))]
  {
    var cs := Candidates([x]);
    CandidateAt([x], 0);
    assert AcceptedUpTo(cs, target, 0) == [];
  }

  /** Repeated sentences that already end in "." and have at most three
      pieces are deduplicated: the cards are pairwise distinct. */
  lemma SelectedDistinct(ranked: seq<Scored>, target: nat)
    requires forall j :: 0 <= j < |ranked| ==>
      EndsWithDot(Strip(ranked[j].text)) && |Pieces(Strip(ranked[j].text))| <= 3
    ensures forall k, l :: 0 <= k < l < |Selected(ranked, target)| ==>
      Selected(ranked, target)[k] != Selected(ranked, target)[l]
  {
    var cs := Candidates(ranked);
    forall j | 0 <= j < |cs| ensures cs[j].trimmed == cs[j].cleaned {
      CandidateAt(ranked, j);
      TruncateKeepsShort(Strip(ranked[j].text));
    }
    AcceptedDistinct(cs, target, |ranked|);
  }

  /** Truncation changes a sentence that does not already end in ".". */
  lemma TruncateChangesUnstopped(c: string)
    requires !EndsWithDot(c)
    ensures Truncate(c) != c
  {
  }

  /** Truncation changes a sentence of more than three pieces: the card is
      shorter than the sentence. */
  lemma TruncateChangesLong(c: string)
    requires |Pieces(c)| > 3
    ensures |Truncate(c)| < |c|
  {
    FirstThreeCut(c);
    var h := FirstThree(c);
    assert |h| + 2 <= |c|;
    assert |Strip(h)| <= |h|;
  }

  /** A candidate whose trimmed text differs from its stripped text is
      accepted again when it recurs. */
  lemma RepeatedCandidate(c: Candidate, target: nat)
    requires target >= 2 && c.cleaned != [] && c.trimmed != c.cleaned
    ensures AcceptedUpTo([c, c], target, 2) == [c.trimmed, c.trimmed]
  {
    assert AcceptedUpTo([c, c], target, 1) == [c.trimmed];
  }

  /** For any stripping and truncation: two sentences both become cards
      when the second's stripped text is not the first's card, even if their
      cards are the same. */
  lemma PreparedBoth(a: Scored, b: Scored, clean: string -> string, trim: string -> string, target: nat)
    requires target >= 2 && clean(a.text) != [] && clean(b.text) != []
    requires clean(b.text) != trim(clean(a.text))
    ensures AcceptedUpTo(Prepared([a, b], clean, trim), target, 2) == [trim(clean(a.text)), trim(clean(b.text))]
  {
    assert AcceptedUpTo(Prepared([a, b], clean, trim), target, 1) == [trim(clean(a.text))];
  }

  /** For any stripping and truncation: the second sentence is skipped when
      its stripped text is the first's card. */
  lemma PreparedSecondSkipped(a: Scored, b: Scored, clean: string -> string, trim: string -> string, target: nat)
    requires target >= 1 && clean(a.text) != []
    requires clean(b.text) == trim(clean(a.text))
    ensures AcceptedUpTo(Prepared([a, b], clean, trim), target, 2) == [trim(clean(a.text))]
  {
    assert AcceptedUpTo(Prepared([a, b], clean, trim), target, 1) == [trim(clean(a.text))];
  }

  /** Two ranked sentences with the same truncation T, where the second's
      stripped text is not T itself, both become cards: the dedup test looks
      at the stripped sentence, not at the card, so T comes out twice. */
  lemma DifferentSourcesSameCard(a: Scored, b: Scored, target: nat)
    requires target >= 2 && Strip(a.text) != [] && Strip(b.text) != []
    requires Truncate(Strip(a.text)) == Truncate(Strip(b.text))
    requires Strip(b.text) != Truncate(Strip(a.text))
    ensures Selected([a, b], target) == [Truncate(Strip(a.text)), Truncate(Strip(a.text))]
  {
    PreparedBoth(a, b, Strip, Truncate, target);
  }

  /** In the other order the second sentence is skipped: when its stripped
      text is the card the first one gave, the dedup test finds it among the
      cards, and only one card comes out. */
  lemma SameCardSkipped(a: Scored, b: Scored, target: nat)
    requires target >= 1 && Strip(a.text) != []
    requires Strip(b.text) == Truncate(Strip(a.text))
    ensures Selected([a, b], target) == [Truncate(Strip(a.text))]
  {
    PreparedSecondSkipped(a, b, Strip, Truncate, target);
  }

  /** The dedup test compares a stripped sentence with the truncated cards,
      so a sentence that truncation changes is not deduplicated: repeated,
      it gives the same card twice. */
  lemma RepeatNotDeduplicated(x: Scored, target: nat)
    requires target >= 2
    requires Strip(x.text) != [] && Truncate(Strip(x.text)) != Strip(x.text)
    ensures Selected([x, x], target) == [Truncate(Strip(x.text)), Truncate(Strip(x.text))]
  {
    var c := Candidate(Strip(x.text), Truncate(Strip(x.text)));
    CandidateAt([x, x], 0);
    CandidateAt([x, x], 1);
    assert Candidates([x, x]) == [c, c];
    RepeatedCandidate(c, target);
  }
}
