/** The ranking step of colour extraction: `Object.entries(freq).sort((a, b) =>
    b[1] - a[1])`. `Array.prototype.sort` is stable, so entries end up by
    descending count and, among equal counts, in their input order. The sort is
    modelled as an insertion sort over `[key, count]` entries. */
module Ranking {

  /** Counts never increase along `s`. */
  predicate NonIncreasing<T>(s: seq<(T, nat)>) {
    forall i, j :: 0 <= i < j < |s| ==> s[i].1 >= s[j].1
  }

  /** `x` goes in front of the first entry whose count does not exceed its own,
      so it stays ahead of the entries of equal count that followed it. */
  function Insert<T>(x: (T, nat), s: seq<(T, nat)>): (r: seq<(T, nat)>)
    ensures |r| == |s| + 1
    ensures r[0] == x || (s != [] && r[0] == s[0])
  {
    if s == [] || x.1 >= s[0].1 then [x] + s else [s[0]] + Insert(x, s[1..])
  }

  /** Inserting adds exactly `x`. */
  lemma {:induction false} InsertPermutation<T>(x: (T, nat), s: seq<(T, nat)>)
    ensures multiset(Insert(x, s)) == multiset(s) + multiset{x}
  {
    if s != [] && x.1 < s[0].1 {
      InsertPermutation(x, s[1..]);
      assert s == [s[0]] + s[1..];
      assert multiset(s) == multiset{s[0]} + multiset(s[1..]);
    }
  }

  /** Inserting into a sorted sequence keeps it sorted. */
  lemma {:induction false} InsertSorted<T>(x: (T, nat), s: seq<(T, nat)>)
    requires NonIncreasing(s)
    ensures NonIncreasing(Insert(x, s))
  {
    if s != [] && x.1 < s[0].1 {
      var tail := Insert(x, s[1..]);
      InsertSorted(x, s[1..]);
      assert tail[0].1 <= s[0].1;
      var r := [s[0]] + tail;
      forall i, j | 0 <= i < j < |r| ensures r[i].1 >= r[j].1 {
        if i == 0 {
          assert tail[0].1 >= tail[j - 1].1;
        } else {
          assert r[i] == tail[i - 1] && r[j] == tail[j - 1];
        }
      }
    }
  }

  /** The entries sorted by descending count, a permutation of the input. */
  function SortByCount<T>(s: seq<(T, nat)>): (r: seq<(T, nat)>)
    ensures NonIncreasing(r)
    ensures multiset(r) == multiset(s)
  {
    if s == [] then []
    else
      var t := SortByCount(s[1..]);
      InsertSorted(s[0], t);
      InsertPermutation(s[0], t);
      assert s == [s[0]] + s[1..];
      Insert(s[0], t)
  }

  /** `a` is ranked ahead of `b`: a higher count, or an equal count and an
      earlier position. */
  predicate RankedBefore<T>(a: (T, nat), b: (T, nat), pos: T -> int) {
    a.1 > b.1 || (a.1 == b.1 && pos(a.0) < pos(b.0))
  }

  /** Every entry of `s` is ranked ahead of every later one. */
  predicate StrictlyRanked<T>(s: seq<(T, nat)>, pos: T -> int) {
    forall i, j :: 0 <= i < j < |s| ==> RankedBefore(s[i], s[j], pos)
  }

  /** Positions increase along `s`. */
  predicate Increasing<T>(s: seq<(T, nat)>, pos: T -> int) {
    forall i, j :: 0 <= i < j < |s| ==> pos(s[i].0) < pos(s[j].0)
  }

  /** Inserting an entry positioned before all others keeps the ranking strict. */
  lemma {:induction false} InsertRanked<T>(x: (T, nat), s: seq<(T, nat)>, pos: T -> int)
    requires StrictlyRanked(s, pos)
    requires forall i :: 0 <= i < |s| ==> pos(x.0) < pos(s[i].0)
    ensures StrictlyRanked(Insert(x, s), pos)
  {
    assert NonIncreasing(s) by {
      forall i, j | 0 <= i < j < |s| ensures s[i].1 >= s[j].1 {
        assert RankedBefore(s[i], s[j], pos);
      }
    }
    if s == [] || x.1 >= s[0].1 {
      var r := [x] + s;
      forall i, j | 0 <= i < j < |r| ensures RankedBefore(r[i], r[j], pos) {
        if i > 0 {
          assert RankedBefore(s[i - 1], s[j - 1], pos);
        }
      }
    } else {
      var rest := s[1..];
      assert StrictlyRanked(rest, pos) by {
        forall i, j | 0 <= i < j < |rest| ensures RankedBefore(rest[i], rest[j], pos) {
          assert RankedBefore(s[i + 1], s[j + 1], pos);
        }
      }
      InsertRanked(x, rest, pos);
      InsertPermutation(x, rest);
      var tail := Insert(x, rest);
      var r := [s[0]] + tail;
      forall i, j | 0 <= i < j < |r| ensures RankedBefore(r[i], r[j], pos) {
        if i == 0 {
          var y := tail[j - 1];
          assert y in multiset(tail);
          if y != x {
            assert y in multiset(rest);
            var k :| 0 <= k < |rest| && rest[k] == y;
            assert RankedBefore(s[0], s[k + 1], pos);
          }
        }
      }
    }
  }

  /** Sorting entries listed in increasing position ranks them strictly: by
      descending count, and equal counts in their input order. */
  lemma {:induction false} SortRanked<T>(s: seq<(T, nat)>, pos: T -> int)
    requires Increasing(s, pos)
    ensures StrictlyRanked(SortByCount(s), pos)
  {
    if s != [] {
      var rest := s[1..];
      assert Increasing(rest, pos) by {
        forall i, j | 0 <= i < j < |rest| ensures pos(rest[i].0) < pos(rest[j].0) {
          assert pos(s[i + 1].0) < pos(s[j + 1].0);
        }
      }
      SortRanked(rest, pos);
      var t := SortByCount(rest);
      forall i | 0 <= i < |t| ensures pos(s[0].0) < pos(t[i].0) {
        assert t[i] in multiset(rest);
        var k :| 0 <= k < |rest| && rest[k] == t[i];
        assert pos(s[0].0) < pos(s[k + 1].0);
      }
      InsertRanked(s[0], t, pos);
    }
  }
}
