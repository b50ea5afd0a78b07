/**
 * The ranking step of the recommender: `sorted(enumerate(row), key=score, reverse=True)`.
 * Python's sort is stable also when `reverse=True`, so entries with equal scores keep
 * the order they had in `enumerate`, which is ascending column index.
 */
module Ranking {

  /** One entry of `enumerate(row)`: a column position and the score stored there. */
  datatype Scored = Scored(index: nat, score: int)

  /** `enumerate(row)`: one pair per column, in ascending column order. */
  function Enumerate(row: seq<int>): (e: seq<Scored>)
    ensures |e| == |row|
    ensures forall j :: 0 <= j < |e| ==> e[j].index == j && e[j].score == row[j]
    ensures IndicesAscending(e)
  {
    seq(|row|, j requires 0 <= j < |row| => Scored(j, row[j]))
  }

  /** Scores never increase along `s`. */
  ghost predicate NonIncreasing(s: seq<Scored>)
  {
    forall a, b :: 0 <= a < b < |s| ==> s[a].score >= s[b].score
  }

  /** Entries with equal scores appear in ascending column order. */
  ghost predicate TiesByIndex(s: seq<Scored>)
  {
    forall a, b :: 0 <= a < b < |s| && s[a].score == s[b].score ==> s[a].index < s[b].index
  }

  ghost predicate IndicesAscending(s: seq<Scored>)
  {
    forall a, b :: 0 <= a < b < |s| ==> s[a].index < s[b].index
  }

  /** The strict order the ranking follows: higher score first, then lower index. */
  predicate Precedes(p: Scored, q: Scored)
  {
    p.score > q.score || (p.score == q.score && p.index < q.index)
  }

  ghost predicate Ranked(s: seq<Scored>)
  {
    forall a, b :: 0 <= a < b < |s| ==> Precedes(s[a], s[b])
  }

  /**
   * Inserts `p` after every entry scoring at least as much as it: one step of a
   * stable sort by descending score, when `p` comes after everything in `s`.
   */
  function InsertDesc(s: seq<Scored>, p: Scored): (r: seq<Scored>)
    ensures multiset(r) == multiset(s) + multiset{p}
  {
    if s == [] then [p]
    else if s[0].score < p.score then [p] + s
    else
      assert s == [s[0]] + s[1..];
      [s[0]] + InsertDesc(s[1..], p)
  }

  /** Stable sort by descending score: each entry is inserted in input order. */
  function SortDesc(xs: seq<Scored>): (r: seq<Scored>)
    ensures multiset(r) == multiset(xs)
  {
    if xs == [] then []
    else
      assert xs == xs[..|xs| - 1] + [xs[|xs| - 1]];
      InsertDesc(SortDesc(xs[..|xs| - 1]), xs[|xs| - 1])
  }

  /** The sorted `(index, score)` pairs of one similarity row. */
  function Rank(row: seq<int>): (r: seq<Scored>)
    ensures |r| == |row|
  {
    assert |SortDesc(Enumerate(row))| == |multiset(Enumerate(row))|;
    SortDesc(Enumerate(row))
  }

  lemma RankedTail(s: seq<Scored>)
    requires Ranked(s) && s != []
    ensures Ranked(s[1..])
  {
    // Stated apart only to keep the callers' proof obligations small.
  }

  /** The first entry of a ranking precedes every other entry of it. */
  lemma FirstPrecedesRest(s: seq<Scored>, x: Scored)
    requires Ranked(s) && x in s
    ensures x == s[0] || Precedes(s[0], x)
  {
    // Stated apart only to keep the callers' proof obligations small.
  }

  /** A ranking stays one when an entry preceding all of it is put in front. */
  lemma RankedCons(x: Scored, t: seq<Scored>)
    requires Ranked(t)
    requires forall y :: y in t ==> Precedes(x, y)
    ensures Ranked([x] + t)
  {
    // Stated apart only to keep the callers' proof obligations small.
  }

  lemma {:induction false} InsertDescRanked(s: seq<Scored>, p: Scored)
    requires Ranked(s)
    requires forall q :: q in s ==> q.index < p.index
    ensures Ranked(InsertDesc(s, p))
  {
    if s == [] {
    } else if s[0].score < p.score {
      forall y | y in s ensures Precedes(p, y) {
        FirstPrecedesRest(s, y);
      }
      RankedCons(p, s);
    } else {
      var t := s[1..];
      RankedTail(s);
      forall q | q in t ensures q.index < p.index { assert q in s; }
      InsertDescRanked(t, p);
      var rest := InsertDesc(t, p);
      forall x | x in rest ensures Precedes(s[0], x) {
        assert x in multiset(rest);
        if x != p {
          assert x in multiset(t);
          assert x in s;
          FirstPrecedesRest(s, x);
          var k :| 0 <= k < |t| && t[k] == x;
          assert s[k + 1] == x;
        }
      }
      RankedCons(s[0], rest);
    }
  }

  lemma {:induction false} SortDescRanked(xs: seq<Scored>)
    requires IndicesAscending(xs)
    ensures Ranked(SortDesc(xs))
  {
    if xs != [] {
      var n := |xs| - 1;
      var init := xs[..n];
      assert IndicesAscending(init) by {
        forall a, b | 0 <= a < b < |init| ensures init[a].index < init[b].index {
          assert init[a] == xs[a] && init[b] == xs[b];
        }
      }
      SortDescRanked(init);
      var sorted := SortDesc(init);
      forall q | q in sorted ensures q.index < xs[n].index {
        assert q in multiset(sorted);
        assert q in multiset(init);
        var k :| 0 <= k < |init| && init[k] == q;
        assert xs[k] == q;
      }
      InsertDescRanked(sorted, xs[n]);
    }
  }

  /** Every entry of `Rank(row)` is a genuine `(j, row[j])` pair. */
  lemma RankEntries(row: seq<int>)
    ensures |Rank(row)| == |row|
    ensures forall k :: 0 <= k < |Rank(row)| ==>
      Rank(row)[k].index < |row| && Rank(row)[k].score == row[Rank(row)[k].index]
  {
    var r := Rank(row);
    var e := Enumerate(row);
    assert |r| == |multiset(r)| == |multiset(e)| == |e|;
    forall k | 0 <= k < |r| ensures r[k].index < |row| && r[k].score == row[r[k].index] {
      assert r[k] in multiset(r);
      assert r[k] in multiset(e);
      var j :| 0 <= j < |e| && e[j] == r[k];
    }
  }

  /**
   * What `sorted(enumerate(row), key=score, reverse=True)` returns: a permutation of
   * the row's pairs, scores non-increasing, equal scores in ascending column order.
   */
  lemma RankIsStableDescending(row: seq<int>)
    ensures multiset(Rank(row)) == multiset(Enumerate(row))
    ensures NonIncreasing(Rank(row))
    ensures TiesByIndex(Rank(row))
  {
    var e := Enumerate(row);
    SortDescRanked(e);
  }

  /** Each column appears in the ranking exactly once. */
  lemma RankIndicesDistinct(row: seq<int>)
    ensures forall a, b :: 0 <= a < b < |Rank(row)| ==> Rank(row)[a].index != Rank(row)[b].index
    ensures forall j :: 0 <= j < |row| ==> Scored(j, row[j]) in Rank(row)
  {
    var r := Rank(row);
    var e := Enumerate(row);
    RankEntries(row);
    SortDescRanked(e);
    forall a, b | 0 <= a < b < |r| ensures r[a].index != r[b].index {
      assert Precedes(r[a], r[b]);
    }
    forall j | 0 <= j < |row| ensures Scored(j, row[j]) in r {
      assert e[j] in multiset(e);
      assert e[j] in multiset(r);
    }
  }

  /** Two rankings of the same entries start with the same entry. */
  lemma RankedSameHead(a: seq<Scored>, b: seq<Scored>)
    requires Ranked(a) && Ranked(b) && a != []
    requires multiset(a) == multiset(b)
    ensures b != [] && a[0] == b[0]
  {
    assert a[0] in multiset(b);
    assert b[0] in multiset(a);
    FirstPrecedesRest(a, b[0]);
    FirstPrecedesRest(b, a[0]);
  }

  /** Two rankings of the same entries are the same sequence. */
  lemma {:induction false} RankedUnique(a: seq<Scored>, b: seq<Scored>)
    requires Ranked(a) && Ranked(b)
    requires multiset(a) == multiset(b)
    ensures a == b
  {
    if a == [] {
      assert |b| == |multiset(b)| == 0;
    } else {
      RankedSameHead(a, b);
      assert a == [a[0]] + a[1..] && b == [b[0]] + b[1..];
      assert multiset(a[1..]) == multiset(a) - multiset{a[0]};
      assert multiset(b[1..]) == multiset(b) - multiset{b[0]};
      RankedTail(a);
      RankedTail(b);
      RankedUnique(a[1..], b[1..]);
    }
  }

  /**
   * The three properties of `RankIsStableDescending` determine the ranking: any
   * stable descending sort of the row's pairs yields exactly `Rank(row)`.
   */
  lemma RankIsDetermined(row: seq<int>, s: seq<Scored>)
    requires multiset(s) == multiset(Enumerate(row))
    requires NonIncreasing(s) && TiesByIndex(s)
    ensures s == Rank(row)
  {
    var e := Enumerate(row);
    SortDescRanked(e);
    assert Ranked(s) by {
      forall a, b | 0 <= a < b < |s| ensures Precedes(s[a], s[b]) {
        if s[a].score == s[b].score {
          assert s[a] in multiset(e) && s[b] in multiset(e);
          var x :| 0 <= x < |e| && e[x] == s[a];
          var y :| 0 <= y < |e| && e[y] == s[b];
          assert s[a].index < s[b].index;
        }
      }
    }
    RankedUnique(s, Rank(row));
  }
}
