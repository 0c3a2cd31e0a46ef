// The Python string built-ins that the flashcard pipeline relies on:
// str.isspace, str.strip(), str.split() with no separator, str.split('. '),
// '. '.join(...), str(n) for a natural number and the ordering of strings.

module PyStr {

  /** A list of closed ranges of code points. */
  datatype Ranges = Nil | Cons(lo: int, hi: int, rest: Ranges)

  /** The code points for which Python's str.isspace() holds: the
      characters that str.strip() removes and str.split() separates on. */
  const SpaceRanges: Ranges :=
    Cons(0x9, 0xD, Cons(0x1C, 0x20, Cons(0x85, 0x85, Cons(0xA0, 0xA0, Cons(0x1680, 0x1680,
    Cons(0x2000, 0x200A, Cons(0x2028, 0x2029, Cons(0x202F, 0x202F, Cons(0x205F, 0x205F,
    Cons(0x3000, 0x3000, Nil))))))))))

  predicate InRanges(n: int, rs: Ranges) {
    match rs
    case Nil => false
    case Cons(lo, hi, rest) => (lo <= n <= hi) || InRanges(n, rest)
  }

  /** str.isspace() on one character. */
  predicate IsSpace(c: char) {
    InRanges(c as int, SpaceRanges)
  }

  /** No range of the list meets [lo, hi]. */
  predicate Outside(rs: Ranges, lo: int, hi: int) {
    match rs
    case Nil => true
    case Cons(a, b, rest) => (b < lo || hi < a) && Outside(rest, lo, hi)
  }

  lemma {:induction false} OutsideNotIn(n: int, rs: Ranges, lo: int, hi: int)
    requires Outside(rs, lo, hi) && lo <= n <= hi
    ensures !InRanges(n, rs)
  {
    if rs.Cons? {
      OutsideNotIn(n, rs.rest, lo, hi);
    }
  }

  /** No printable ASCII character is whitespace. */
  lemma PrintableNotSpace(c: char)
    requires 0x21 <= c as int <= 0x7E
    ensures !IsSpace(c)
  {
    assert Outside(SpaceRanges, 0x21, 0x7E);
    OutsideNotIn(c as int, SpaceRanges, 0x21, 0x7E);
  }

  predicate AllSpace(s: string) {
    forall k :: 0 <= k < |s| ==> IsSpace(s[k])
  }

  predicate NoSpace(s: string) {
    forall k :: 0 <= k < |s| ==> !IsSpace(s[k])
  }

  /** Neither end of s is whitespace: what str.strip() returns. */
  predicate Stripped(s: string) {
    s == [] || (!IsSpace(s[0]) && !IsSpace(s[|s| - 1]))
  }

  predicate IsPrefix<T(==)>(p: seq<T>, s: seq<T>) {
    |p| <= |s| && p == s[..|p|]
  }

  // ---------------------------------------------------------------------------
  // str.strip()
  // ---------------------------------------------------------------------------

  /** Number of whitespace characters at the start of s. */
  function LeadLen(s: string): (n: nat)
    ensures n <= |s|
    ensures n == |s| || !IsSpace(s[n])
  {
    if s != [] && IsSpace(s[0]) then 1 + LeadLen(s[1..]) else 0
  }

  lemma {:induction false} LeadLenSpaces(s: string)
    ensures AllSpace(s[..LeadLen(s)])
  {
    if s != [] && IsSpace(s[0]) {
      LeadLenSpaces(s[1..]);
      assert s[..LeadLen(s)] == [s[0]] + s[1..][..LeadLen(s[1..])];
    }
  }

  /** Number of whitespace characters at the end of s. */
  function TrailLen(s: string): (n: nat)
    ensures n <= |s|
    ensures n == |s| || !IsSpace(s[|s| - n - 1])
  {
    if s != [] && IsSpace(s[|s| - 1]) then 1 + TrailLen(s[..|s| - 1]) else 0
  }

  lemma {:induction false} TrailLenSpaces(s: string)
    ensures AllSpace(s[|s| - TrailLen(s)..])
  {
    if s != [] && IsSpace(s[|s| - 1]) {
      var u := s[..|s| - 1];
      TrailLenSpaces(u);
      assert s[|s| - TrailLen(s)..] == u[|u| - TrailLen(u)..] + [s[|s| - 1]];
    }
  }

  /** str.lstrip() */
  function TrimLeft(s: string): string {
    s[LeadLen(s)..]
  }

  /** str.rstrip() */
  function TrimRight(s: string): string {
    s[..|s| - TrailLen(s)]
  }

  /** str.strip(): s with its leading and trailing whitespace removed. */
  function Strip(s: string): (r: string)
    ensures Stripped(r)
  {
    TrimRight(TrimLeft(s))
  }

  /** What str.strip() removes is whitespace, and only whitespace: the result
      is the slice of s between a run of leading and a run of trailing
      whitespace. */
  lemma StripSlice(s: string)
    ensures exists i :: 0 <= i <= |s| - |Strip(s)| && Strip(s) == s[i..i + |Strip(s)|] &&
                        AllSpace(s[..i]) && AllSpace(s[i + |Strip(s)|..])
  {
    var t := TrimLeft(s);
    var r := TrimRight(t);
    var i := LeadLen(s);
    LeadLenSpaces(s);
    TrailLenSpaces(t);
    assert r == s[i..i + |r|] && AllSpace(s[i + |r|..]) by {
      assert s[i + |r|..] == t[|r|..];
    }
  }

  /** Stripping a string with no whitespace at either end leaves it unchanged. */
  lemma StripStripped(s: string)
    requires Stripped(s)
    ensures Strip(s) == s
  {
  }

  /** The stripped text is empty exactly when the input is all whitespace. */
  lemma StripEmpty(s: string)
    ensures Strip(s) == [] <==> AllSpace(s)
  {
    var t := TrimLeft(s);
    LeadLenSpaces(s);
    assert s == s[..LeadLen(s)] + t;
    if Strip(s) == [] {
      TrailLenSpaces(t);
      assert t[|t| - TrailLen(t)..] == t;
    }
  }

  // ---------------------------------------------------------------------------
  // str.split() with no separator: maximal runs of non-whitespace
  // ---------------------------------------------------------------------------

  /** Length of the run of non-whitespace characters at the start of t. */
  function WordLen(t: string): (n: nat)
    ensures n <= |t| && NoSpace(t[..n])
    ensures n == |t| || IsSpace(t[n])
  {
    if t == [] || IsSpace(t[0]) then 0 else 1 + WordLen(t[1..])
  }

  /** str.split(): the words of s, in order. */
  function Words(s: string): (ws: seq<string>)
    ensures forall k :: 0 <= k < |ws| ==> ws[k] != [] && NoSpace(ws[k])
    decreases |s|
  {
    if s == [] then []
    else if IsSpace(s[0]) then Words(s[1..])
    else
      var n := WordLen(s);
      [s[..n]] + Words(s[n..])
  }

  /** str.split() finds no word exactly when s is all whitespace. */
  lemma {:induction false} WordsEmpty(s: string)
    ensures Words(s) == [] <==> AllSpace(s)
    decreases |s|
  {
    if s != [] && IsSpace(s[0]) {
      WordsEmpty(s[1..]);
      assert forall k :: 0 < k < |s| ==> s[k] == s[1..][k - 1];
    }
  }

  /** len(s.split()): the number of whitespace-delimited words of s; none
      exactly when s is all whitespace. */
  function WordCount(s: string): (n: nat)
    ensures n == 0 <==> AllSpace(s)
  {
    WordsEmpty(s);
    |Words(s)|
  }

  /** ' '.join(ws). */
  function JoinSpace(ws: seq<string>): string {
    if ws == [] then []
    else if |ws| == 1 then ws[0]
    else ws[0] + " " + JoinSpace(ws[1..])
  }

  lemma {:induction false} WordLenOfWord(w: string, rest: string)
    requires NoSpace(w)
    requires rest == [] || IsSpace(rest[0])
    ensures WordLen(w + rest) == |w|
    decreases |w|
  {
    if w != [] {
      assert (w + rest)[1..] == w[1..] + rest;
      WordLenOfWord(w[1..], rest);
    } else {
      assert w + rest == rest;
    }
  }

  /** A word is cut at the first whitespace: text after it does not change
      where the first word of a ends. */
  lemma {:induction false} WordLenAgree(a: string, rest: string)
    requires rest == [] || IsSpace(rest[0])
    ensures WordLen(a + rest) == WordLen(a)
  {
    if a != [] && !IsSpace(a[0]) {
      assert (a + rest)[1..] == a[1..] + rest;
      WordLenAgree(a[1..], rest);
    } else if a == [] {
      assert a + rest == rest;
    }
  }

  /** Leading whitespace, however long, yields no word. */
  lemma {:induction false} WordsSpaces(sp: string, b: string)
    requires AllSpace(sp)
    ensures Words(sp + b) == Words(b)
  {
    if sp == [] {
      assert sp + b == b;
    } else {
      assert (sp + b)[0] == sp[0];
      assert (sp + b)[1..] == sp[1..] + b;
      WordsSpaces(sp[1..], b);
    }
  }

  /** Words are maximal runs of non-whitespace: any run of whitespace, of
      any kind and length, separates the words before it from those after
      it, and contributes nothing itself. */
  lemma {:induction false} WordsSplit(a: string, sp: string, b: string)
    requires sp != [] && AllSpace(sp)
    ensures Words(a + sp + b) == Words(a) + Words(b)
    decreases |a|
  {
    var t := a + sp + b;
    if a == [] {
      assert t == sp + b;
      WordsSpaces(sp, b);
    } else if IsSpace(a[0]) {
      assert t[0] == a[0];
      assert t[1..] == a[1..] + sp + b;
      WordsSplit(a[1..], sp, b);
    } else {
      var n := WordLen(a);
      assert t == a + (sp + b);
      WordLenAgree(a, sp + b);
      assert t[..n] == a[..n];
      assert t[n..] == a[n..] + sp + b;
      WordsSplit(a[n..], sp, b);
    }
  }

  /** A word followed by a space and more text splits off as the first word. */
  lemma WordsCons(w: string, rest: string)
    requires w != [] && NoSpace(w)
    ensures Words(w + " " + rest) == [w] + Words(rest)
  {
    var s := w + " " + rest;
    var sp := " " + rest;
    assert s == w + sp;
    assert s[0] == w[0] && !IsSpace(s[0]);
    WordLenOfWord(w, sp);
    assert s[..|w|] == w;
    assert s[|w|..] == sp;
    assert Words(s) == [w] + Words(sp);
    assert sp[0] == ' ' && sp[1..] == rest;
    assert Words(sp) == Words(rest);
  }

  /** A single word splits into itself. */
  lemma WordsOfWord(w: string)
    requires w != [] && NoSpace(w)
    ensures Words(w) == [w]
  {
    WordLenOfWord(w, []);
    assert w + [] == w;
    assert w[..|w|] == w && w[|w|..] == [];
  }

  /** Splitting words joined by single spaces gives the words back. */
  lemma {:induction false} WordsJoinSpace(ws: seq<string>)
    requires forall k :: 0 <= k < |ws| ==> ws[k] != [] && NoSpace(ws[k])
    ensures Words(JoinSpace(ws)) == ws
  {
    if |ws| == 1 {
      WordsOfWord(ws[0]);
    } else if |ws| > 1 {
      WordsJoinSpace(ws[1..]);
      WordsCons(ws[0], JoinSpace(ws[1..]));
      assert JoinSpace(ws) == ws[0] + " " + JoinSpace(ws[1..]);
      assert ws == [ws[0]] + ws[1..];
    }
  }

  /** The characters of s that are not whitespace, in order. */
  function NonSpace(s: string): string {
    if s == [] then [] else (if IsSpace(s[0]) then [] else [s[0]]) + NonSpace(s[1..])
  }

  /** The words concatenated. */
  function Concat(ws: seq<string>): string {
    if ws == [] then [] else ws[0] + Concat(ws[1..])
  }

  lemma {:induction false} NonSpaceAppend(a: string, b: string)
    ensures NonSpace(a + b) == NonSpace(a) + NonSpace(b)
  {
    if a != [] {
      assert (a + b)[1..] == a[1..] + b;
      NonSpaceAppend(a[1..], b);
    } else {
      assert a + b == b;
    }
  }

  lemma {:induction false} NonSpaceOfSpaces(s: string)
    requires AllSpace(s)
    ensures NonSpace(s) == []
  {
    if s != [] {
      NonSpaceOfSpaces(s[1..]);
    }
  }

  lemma {:induction false} NonSpaceOfWord(s: string)
    requires NoSpace(s)
    ensures NonSpace(s) == s
  {
    if s != [] {
      NonSpaceOfWord(s[1..]);
    }
  }

  /** str.split() loses nothing but whitespace: its words, concatenated, are
      exactly the non-whitespace characters of s. */
  lemma {:induction false} WordsKeepText(s: string)
    ensures Concat(Words(s)) == NonSpace(s)
    decreases |s|
  {
    if s == [] {
    } else if IsSpace(s[0]) {
      WordsKeepText(s[1..]);
    } else {
      var n := WordLen(s);
      var w, rest := s[..n], s[n..];
      assert s == w + rest;
      NonSpaceAppend(w, rest);
      NonSpaceOfWord(w);
      WordsKeepText(rest);
      assert Words(s) == [w] + Words(rest);
      assert ([w] + Words(rest))[1..] == Words(rest);
    }
  }

  // ---------------------------------------------------------------------------
  // str.split('. ') and '. '.join(...)
  // ---------------------------------------------------------------------------

  /** No occurrence of the two-character separator ". " in s. */
  predicate NoSep(s: string) {
    forall k :: 0 <= k < |s| - 1 ==> !(s[k] == '.' && s[k + 1] == ' ')
  }

  /** s.split('. '): the pieces between occurrences of ". ", left to right. */
  function Pieces(s: string): (ps: seq<string>)
    ensures |ps| >= 1
    ensures IsPrefix(ps[0], s)
    decreases |s|
  {
    if |s| < 2 then [s]
    else if s[0] == '.' && s[1] == ' ' then [[]] + Pieces(s[2..])
    else
      var rest := Pieces(s[1..]);
      [[s[0]] + rest[0]] + rest[1..]
  }

  /** No piece contains the separator. */
  lemma {:induction false} PiecesNoSep(s: string)
    ensures forall k :: 0 <= k < |Pieces(s)| ==> NoSep(Pieces(s)[k])
    decreases |s|
  {
    if |s| < 2 {
    } else if s[0] == '.' && s[1] == ' ' {
      PiecesNoSep(s[2..]);
      assert Pieces(s)[1..] == Pieces(s[2..]);
    } else {
      PiecesNoSep(s[1..]);
      var rest := Pieces(s[1..]);
      assert Pieces(s)[1..] == rest[1..];
      var p := [s[0]] + rest[0];
      assert NoSep(p) by {
        if |rest[0]| > 0 {
          assert p[1] == s[1];
        }
      }
    }
  }

  /** '. '.join(ps). */
  function JoinDot(ps: seq<string>): string {
    if ps == [] then []
    else if |ps| == 1 then ps[0]
    else ps[0] + ". " + JoinDot(ps[1..])
  }

  lemma JoinDotConsChar(c: char, ps: seq<string>)
    requires |ps| >= 1
    ensures JoinDot([[c] + ps[0]] + ps[1..]) == [c] + JoinDot(ps)
  {
    var qs := [[c] + ps[0]] + ps[1..];
    if |ps| > 1 {
      assert qs[1..] == ps[1..];
    }
  }

  /** Joining the pieces of s with ". " gives s back. */
  lemma {:induction false} JoinDotPieces(s: string)
    ensures JoinDot(Pieces(s)) == s
    decreases |s|
  {
    if |s| < 2 {
    } else if s[0] == '.' && s[1] == ' ' {
      JoinDotPieces(s[2..]);
      var ps := [[]] + Pieces(s[2..]);
      assert ps[1..] == Pieces(s[2..]);
      assert s == ". " + s[2..];
    } else {
      var rest := Pieces(s[1..]);
      JoinDotPieces(s[1..]);
      JoinDotConsChar(s[0], rest);
      assert s == [s[0]] + s[1..];
    }
  }

  /** The pieces are determined: any pieces free of ". " that join to s are
      the pieces str.split('. ') returns. */
  lemma {:induction false} PiecesUnique(ps: seq<string>)
    requires |ps| >= 1
    requires forall k :: 0 <= k < |ps| ==> NoSep(ps[k])
    ensures Pieces(JoinDot(ps)) == ps
    decreases |JoinDot(ps)|, |ps[0]|
  {
    var s := JoinDot(ps);
    if |ps| == 1 {
      PiecesOfNoSep(ps[0]);
    } else if ps[0] == [] {
      assert s == ". " + JoinDot(ps[1..]);
      assert s[2..] == JoinDot(ps[1..]);
      PiecesUnique(ps[1..]);
      assert ps == [[]] + ps[1..];
    } else {
      var qs := [ps[0][1..]] + ps[1..];
      assert qs[1..] == ps[1..];
      assert NoSep(ps[0][1..]);
      assert JoinDot(qs) == ps[0][1..] + ". " + JoinDot(ps[1..]);
      assert s == [ps[0][0]] + JoinDot(qs);
      PiecesUnique(qs);
      assert s[1..] == JoinDot(qs);
      assert !(s[0] == '.' && s[1] == ' ') by {
        if |ps[0]| >= 2 {
          assert s[1] == ps[0][1];
        } else {
          assert s[1] == '.';
        }
      }
      assert [ps[0][0]] + qs[0] == ps[0];
      assert ps == [ps[0]] + ps[1..];
    }
  }

  lemma {:induction false} PiecesOfNoSep(s: string)
    requires NoSep(s)
    ensures Pieces(s) == [s]
    decreases |s|
  {
    if |s| >= 2 {
      PiecesOfNoSep(s[1..]);
      assert [s[0]] + s[1..] == s;
    }
  }

  /** Joining the first k pieces gives a prefix of joining them all. */
  lemma {:induction false} JoinDotPrefix(ps: seq<string>, k: nat)
    requires 1 <= k <= |ps|
    ensures IsPrefix(JoinDot(ps[..k]), JoinDot(ps))
  {
    if k > 1 {
      JoinDotPrefix(ps[1..], k - 1);
      assert ps[..k][1..] == ps[1..][..k - 1];
    } else {
      assert ps[..k] == [ps[0]];
    }
  }

  // ---------------------------------------------------------------------------
  // str(n) for a natural number
  // ---------------------------------------------------------------------------

  function Digit(d: nat): char
    requires d < 10
  {
    "0123456789"[d]
  }

  /** str(n): the decimal digits of n, without leading zeros. */
  function Decimal(n: nat): (r: string)
    ensures |r| >= 1
    ensures n < 10 <==> |r| == 1
    ensures r[|r| - 1] == Digit(n % 10)
    decreases n
  {
    if n < 10 then [Digit(n)] else Decimal(n / 10) + [Digit(n % 10)]
  }

  lemma DigitInjective(a: nat, b: nat)
    requires a < 10 && b < 10 && Digit(a) == Digit(b)
    ensures a == b
  {
  }

  /** Different numbers print differently. */
  lemma {:induction false} DecimalInjective(a: nat, b: nat)
    requires Decimal(a) == Decimal(b)
    ensures a == b
    decreases a
  {
    DigitInjective(a % 10, b % 10);
    if a >= 10 {
      var ra, rb := Decimal(a), Decimal(b);
      assert ra[..|ra| - 1] == Decimal(a / 10);
      assert rb[..|rb| - 1] == Decimal(b / 10);
      DecimalInjective(a / 10, b / 10);
    }
  }

  // ---------------------------------------------------------------------------
  // String ordering: Python compares strings code point by code point
  // ---------------------------------------------------------------------------

  /** a <= b on Python strings. */
  predicate LexLeq(a: string, b: string) {
    a == [] || (b != [] && (a[0] < b[0] || (a[0] == b[0] && LexLeq(a[1..], b[1..]))))
  }

  lemma {:induction false} LexTotal(a: string, b: string)
    ensures LexLeq(a, b) || LexLeq(b, a)
  {
    if a != [] && b != [] && a[0] == b[0] {
      LexTotal(a[1..], b[1..]);
    }
  }

  lemma {:induction false} LexAntisymmetric(a: string, b: string)
    requires LexLeq(a, b) && LexLeq(b, a)
    ensures a == b
  {
    if a != [] && b != [] {
      LexAntisymmetric(a[1..], b[1..]);
      assert a == [a[0]] + a[1..] && b == [b[0]] + b[1..];
    }
  }

  lemma {:induction false} LexTransitive(a: string, b: string, c: string)
    requires LexLeq(a, b) && LexLeq(b, c)
    ensures LexLeq(a, c)
  {
    if a != [] && b != [] && c != [] && a[0] == b[0] == c[0] {
      LexTransitive(a[1..], b[1..], c[1..]);
    }
  }
}
