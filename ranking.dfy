/** Ranking of candidate segments, shared by both selectors of
    clipify/core/content_analysis.py: Python's stable `list.sort` by a key,
    the `[:n]` slice, and the selection "best `n` by score, then in
    chronological order". */
module Ranking {

  /** A candidate segment: its stripped text, its times, its score and its
      position in the selector's input (which tells apart candidates that
      are otherwise equal, as distinct dictionaries are in Python). */
  datatype Candidate = Candidate(text: string, start: int, end: int, score: int, pos: nat)

  /** A selected segment: the `{'text', 'start', 'end'}` dictionary the
      selectors return. */
  datatype Selected = Selected(text: string, start: int, end: int)

  /** The two sorts the selectors perform: `key=score, reverse=True` and
      `key=start`. A stable sort in reverse keeps equal keys in input order,
      so the first is an ascending stable sort on the negated score. */
  datatype Order = ScoreDescending | StartAscending

  function Key(o: Order, c: Candidate): int {
    match o
    case ScoreDescending => -c.score
    case StartAscending => c.start
  }

  predicate SortedBy(o: Order, s: seq<Candidate>) {
    forall i, j :: 0 <= i < j < |s| ==> Key(o, s[i]) <= Key(o, s[j])
  }

  /** `a` comes before `b` in the order, ties broken by input position. */
  predicate Precedes(o: Order, a: Candidate, b: Candidate) {
    Key(o, a) < Key(o, b) || (Key(o, a) == Key(o, b) && a.pos < b.pos)
  }

  predicate LexSorted(o: Order, s: seq<Candidate>) {
    forall i, j :: 0 <= i < j < |s| ==> Precedes(o, s[i], s[j])
  }

  predicate IncreasingPos(s: seq<Candidate>) {
    forall i, j :: 0 <= i < j < |s| ==> s[i].pos < s[j].pos
  }

  /** Inserts `x` after every element whose key is at most its own: the
      step of a stable insertion sort. */
  function Insert(o: Order, r: seq<Candidate>, x: Candidate): (q: seq<Candidate>)
    ensures |q| == |r| + 1
    ensures multiset(q) == multiset(r) + multiset{x}
    ensures forall y :: y in q <==> y in r || y == x
  {
    if r == [] then [x]
    else if Key(o, r[|r| - 1]) <= Key(o, x) then r + [x]
    else
      var init := r[..|r| - 1];
      assert r == init + [r[|r| - 1]];
      Insert(o, init, x) + [r[|r| - 1]]
  }

  lemma {:induction false} InsertSorted(o: Order, r: seq<Candidate>, x: Candidate)
    requires SortedBy(o, r)
    ensures SortedBy(o, Insert(o, r, x))
  {
    if r != [] && Key(o, r[|r| - 1]) > Key(o, x) {
      var init := r[..|r| - 1];
      var last := r[|r| - 1];
      InsertSorted(o, init, x);
      var q := Insert(o, r, x);
      var p := Insert(o, init, x);
      assert q == p + [last];
      forall i, j | 0 <= i < j < |q|
        ensures Key(o, q[i]) <= Key(o, q[j])
      {
        if j == |q| - 1 {
          assert q[i] == p[i];
          assert p[i] in p;
          if p[i] != x {
            assert p[i] in init;
            var k :| 0 <= k < |init| && init[k] == p[i];
            assert r[k] == p[i];
          }
        } else {
          assert q[i] == p[i] && q[j] == p[j];
        }
      }
    }
  }

  /** Python's stable `list.sort(key=...)`: a sorted permutation of the input. */
  function SortBy(o: Order, s: seq<Candidate>): (r: seq<Candidate>)
    ensures |r| == |s|
    ensures multiset(r) == multiset(s)
    ensures SortedBy(o, r)
  {
    if s == [] then []
    else
      assert s == s[..|s| - 1] + [s[|s| - 1]];
      InsertSorted(o, SortBy(o, s[..|s| - 1]), s[|s| - 1]);
      Insert(o, SortBy(o, s[..|s| - 1]), s[|s| - 1])
  }

  lemma {:induction false} InsertLex(o: Order, r: seq<Candidate>, x: Candidate)
    requires LexSorted(o, r)
    requires forall y :: y in r ==> y.pos < x.pos
    ensures LexSorted(o, Insert(o, r, x))
  {
    if r != [] && Key(o, r[|r| - 1]) > Key(o, x) {
      var init := r[..|r| - 1];
      var last := r[|r| - 1];
      assert forall y :: y in init ==> y in r;
      InsertLex(o, init, x);
      LastAbove(o, r, init);
      AppendLex(o, Insert(o, init, x), last);
    }
  }

  /** In a sequence sorted with ties by position, every earlier element
      precedes the last one. */
  lemma LastAbove(o: Order, r: seq<Candidate>, init: seq<Candidate>)
    requires LexSorted(o, r) && r != [] && init == r[..|r| - 1]
    ensures forall y :: y in init ==> Precedes(o, y, r[|r| - 1])
  {
    forall y | y in init
      ensures Precedes(o, y, r[|r| - 1])
    {
      var k :| 0 <= k < |init| && init[k] == y;
      assert r[k] == y;
    }
  }

  lemma AppendLex(o: Order, p: seq<Candidate>, z: Candidate)
    requires LexSorted(o, p)
    requires forall y :: y in p ==> Precedes(o, y, z)
    ensures LexSorted(o, p + [z])
  {
    var q := p + [z];
    forall i, j | 0 <= i < j < |q|
      ensures Precedes(o, q[i], q[j])
    {
      assert q[i] == p[i] && p[i] in p;
      if j < |p| { assert q[j] == p[j]; }
    }
  }

  /** Stability: when the input is in position order, the sorted output is
      ordered by key and, among equal keys, still by position. */
  lemma {:induction false} SortByStable(o: Order, s: seq<Candidate>)
    requires IncreasingPos(s)
    ensures LexSorted(o, SortBy(o, s))
  {
    if s != [] {
      var init := s[..|s| - 1];
      SortByStable(o, init);
      var x := s[|s| - 1];
      forall y | y in SortBy(o, init)
        ensures y.pos < x.pos
      {
        assert y in multiset(init);
      }
      InsertLex(o, SortBy(o, init), x);
    }
  }

  /** Appending a candidate from a later position keeps positions increasing. */
  lemma AppendIncreasing(p: seq<Candidate>, z: Candidate)
    requires IncreasingPos(p)
    requires forall y :: y in p ==> y.pos < z.pos
    ensures IncreasingPos(p + [z])
  {
    var q := p + [z];
    forall i, j | 0 <= i < j < |q|
      ensures q[i].pos < q[j].pos
    {
      assert q[i] == p[i] && p[i] in p;
      if j < |p| { assert q[j] == p[j]; }
    }
  }

  /** The length of Python's `s[:n]` for a list of length `len`. */
  function SliceLength(len: nat, n: int): nat {
    if n >= 0 then (if n <= len then n else len)
    else if len + n > 0 then len + n else 0
  }

  /** Python's `s[:n]`, negative `n` included (it then drops `-n` items from
      the end). */
  function SliceTo<T>(s: seq<T>, n: int): (r: seq<T>)
    ensures |r| == SliceLength(|s|, n)
    ensures r == s[..|r|]
  {
    if n >= 0 then (if n <= |s| then s[..n] else s)
    else if |s| + n > 0 then s[..|s| + n]
    else []
  }

  /** Sort by score (descending), keep the first `num`, sort those by start. */
  function SelectTop(cands: seq<Candidate>, num: int): (r: seq<Candidate>)
    ensures |r| == SliceLength(|cands|, num)
    ensures SortedBy(StartAscending, r)
    ensures multiset(r) <= multiset(cands)
  {
    var ranked := SortBy(ScoreDescending, cands);
    var top := SliceTo(ranked, num);
    assert ranked == top + ranked[|top|..];
    SortBy(StartAscending, top)
  }

  /** Top-k optimality: a candidate left out never ranks above a selected
      one; it has a lower score, or the same score and a later position. */
  lemma TopOptimal(cands: seq<Candidate>, num: int, c: Candidate, u: Candidate)
    requires IncreasingPos(cands)
    requires c in SelectTop(cands, num)
    requires u in cands && u !in SelectTop(cands, num)
    ensures u.score < c.score || (u.score == c.score && c.pos < u.pos)
  {
    var ranked := SortBy(ScoreDescending, cands);
    var top := SliceTo(ranked, num);
    SelectTopContents(cands, num, c);
    SelectTopContents(cands, num, u);
    SortByStable(ScoreDescending, cands);
    var i := IndexIn(top, c);
    MemberOfPermutation(cands, ranked, u);
    var j := IndexIn(ranked, u);
    PrefixIndex(ranked, |top|, u, j);
    assert ranked[i] == c;
    assert Precedes(ScoreDescending, ranked[i], ranked[j]);
  }

  /** The selection holds exactly the candidates of the score-ranked prefix. */
  lemma SelectTopContents(cands: seq<Candidate>, num: int, x: Candidate)
    ensures x in SelectTop(cands, num) <==> x in SliceTo(SortBy(ScoreDescending, cands), num)
  {
    var top := SliceTo(SortBy(ScoreDescending, cands), num);
    MemberOfPermutation(top, SortBy(StartAscending, top), x);
  }

  lemma MemberOfPermutation<T>(s: seq<T>, t: seq<T>, x: T)
    requires multiset(s) == multiset(t)
    ensures x in s <==> x in t
  {
    assert x in s <==> x in multiset(s);
    assert x in t <==> x in multiset(t);
  }

  lemma IndexIn<T>(s: seq<T>, x: T) returns (i: nat)
    requires x in s
    ensures i < |s| && s[i] == x
  {
    i :| 0 <= i < |s| && s[i] == x;
  }

  /** An element found past a prefix's end is not in the prefix. */
  lemma PrefixIndex<T>(s: seq<T>, n: nat, x: T, j: nat)
    requires n <= |s| && j < |s| && s[j] == x && x !in s[..n]
    ensures j >= n
  {
  }

  /** Keeps only `text`, `start` and `end`. */
  function Project(s: seq<Candidate>): (r: seq<Selected>)
    ensures |r| == |s|
    ensures forall i :: 0 <= i < |s| ==> r[i] == Selected(s[i].text, s[i].start, s[i].end)
  {
    if s == [] then [] else Project(s[..|s| - 1]) + [Selected(s[|s| - 1].text, s[|s| - 1].start, s[|s| - 1].end)]
  }
}
