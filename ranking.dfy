// The ranking step of generate_flashcards:
//   sorted(((scores[i], s) for i, s in enumerate(sentences)), reverse=True)
// Scores come from an opaque ranker and are modelled as integers; tuples are
// compared by score first and then by sentence text, so equal scores are
// ordered by text, descending.

module Ranking {
  import opened PyStr

  /** One (score, sentence) tuple of the ranked list. */
  datatype Scored = Scored(score: int, text: string)

  /** The generator of (score, sentence) tuples, in document order. */
  function Pair(scores: seq<int>, sentences: seq<string>): (r: seq<Scored>)
    requires |scores| == |sentences|
  {
    seq(|sentences|, i requires 0 <= i < |sentences| => Scored(scores[i], sentences[i]))
  }

  /** p >= q under Python's tuple ordering: p may stand before q in the
      list sorted with reverse=True. */
  predicate Before(p: Scored, q: Scored) {
    p.score > q.score || (p.score == q.score && LexLeq(q.text, p.text))
  }

  lemma BeforeTotal(p: Scored, q: Scored)
    ensures Before(p, q) || Before(q, p)
  {
    LexTotal(p.text, q.text);
  }

  lemma BeforeTransitive(p: Scored, q: Scored, r: Scored)
    requires Before(p, q) && Before(q, r)
    ensures Before(p, r)
  {
    if p.score == q.score == r.score {
      LexTransitive(r.text, q.text, p.text);
    }
  }

  lemma BeforeAntisymmetric(p: Scored, q: Scored)
    requires Before(p, q) && Before(q, p)
    ensures p == q
  {
    LexAntisymmetric(p.text, q.text);
  }

  /** Non-increasing in (score, text). */
  predicate Sorted(r: seq<Scored>) {
    forall i, j :: 0 <= i < j < |r| ==> Before(r[i], r[j])
  }

  /** Places x into the sorted list s ahead of the first element it is not
      below. */
  function Insert(x: Scored, s: seq<Scored>): (r: seq<Scored>)
    requires Sorted(s)
    ensures Sorted(r)
    ensures multiset(r) == multiset(s) + multiset{x}
  {
    if s == [] || Before(x, s[0]) then
      BeforeAll(x, s);
      [x] + s
    else
      BeforeTotal(x, s[0]);
      var tail := Insert(x, s[1..]);
      HeadBeforeInserted(x, s, tail);
      assert s == [s[0]] + s[1..];
      [s[0]] + tail
  }

  /** An element placed before the head of a sorted list is before all of it. */
  lemma BeforeAll(x: Scored, s: seq<Scored>)
    requires Sorted(s) && (s == [] || Before(x, s[0]))
    ensures forall j :: 0 <= j < |s| ==> Before(x, s[j])
  {
    forall j | 0 <= j < |s| ensures Before(x, s[j]) {
      if j > 0 { BeforeTransitive(x, s[0], s[j]); }
    }
  }

  /** The head of s stays before everything of the tail once x, which it is
      before, has been inserted. */
  lemma HeadBeforeInserted(x: Scored, s: seq<Scored>, tail: seq<Scored>)
    requires Sorted(s) && s != [] && Before(s[0], x)
    requires multiset(tail) == multiset(s[1..]) + multiset{x}
    ensures forall j :: 0 <= j < |tail| ==> Before(s[0], tail[j])
  {
    forall j | 0 <= j < |tail| ensures Before(s[0], tail[j]) {
      assert tail[j] in multiset(tail);
      if tail[j] != x {
        assert tail[j] in multiset(s[1..]);
        var k :| 0 <= k < |s[1..]| && s[1..][k] == tail[j];
        assert s[1 + k] == tail[j];
      }
    }
  }

  /** sorted(xs, reverse=True), by insertion. */
  function Ranked(xs: seq<Scored>): (r: seq<Scored>)
    ensures Sorted(r)
    ensures multiset(r) == multiset(xs)
  {
    if xs == [] then []
    else
      assert xs == [xs[0]] + xs[1..];
      Insert(xs[0], Ranked(xs[1..]))
  }

  /** The head of a sorted list stands before every other element of it. */
  lemma SortedHead(a: seq<Scored>, x: Scored)
    requires Sorted(a) && x in a
    ensures a[0] == x || Before(a[0], x)
  {
    var i :| 0 <= i < |a| && a[i] == x;
    if i > 0 {
      assert Before(a[0], a[i]);
    }
  }

  /** Two sorted arrangements of the same tuples start with the same one. */
  lemma SortedSameHead(a: seq<Scored>, b: seq<Scored>)
    requires Sorted(a) && Sorted(b) && a != []
    requires multiset(a) == multiset(b)
    ensures b != [] && a[0] == b[0]
  {
    assert a[0] in multiset(b);
    assert b != [];
    assert b[0] in multiset(a);
    SortedHead(b, a[0]);
    SortedHead(a, b[0]);
    if a[0] != b[0] {
      BeforeAntisymmetric(a[0], b[0]);
    }
  }

  /** Removing the head of a list removes one copy of it from the multiset. */
  lemma TailMultiset(a: seq<Scored>)
    requires a != []
    ensures multiset(a[1..]) == multiset(a) - multiset{a[0]}
  {
    assert a == [a[0]] + a[1..];
  }

  /** Two sorted arrangements of the same tuples are the same list, so the
      ranked list does not depend on how the sort is carried out (stable or
      not): the tuples alone determine it. */
  lemma {:induction false} SortedUnique(a: seq<Scored>, b: seq<Scored>)
    requires Sorted(a) && Sorted(b)
    requires multiset(a) == multiset(b)
    ensures a == b
  {
    if a != [] {
      SortedSameHead(a, b);
      TailMultiset(a);
      TailMultiset(b);
      assert Sorted(a[1..]) && Sorted(b[1..]);
      SortedUnique(a[1..], b[1..]);
      assert a == [a[0]] + a[1..] && b == [b[0]] + b[1..];
    } else {
      assert |multiset(b)| == 0;
    }
  }

  /** Equal scores are ordered by sentence text, descending, not by document
      order: the later sentence "banana" is ranked before "apple". */
  lemma TiesByTextDescending()
    ensures Ranked([Scored(1, "apple"), Scored(1, "banana")]) == [Scored(1, "banana"), Scored(1, "apple")]
  {
    var xs := [Scored(1, "apple"), Scored(1, "banana")];
    var want := [Scored(1, "banana"), Scored(1, "apple")];
    assert LexLeq("apple", "banana");
    assert Sorted(want);
    assert multiset(want) == multiset(xs);
    SortedUnique(Ranked(xs), want);
  }
}
