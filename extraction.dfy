/** Dominant-colour extraction, the body of `img.onload` in `handleFile`: one
    pixel in four of the RGBA buffer is sampled, its red, green and blue bytes
    are rounded to multiples of 32, the rounded colours are counted in a table
    that remembers insertion order, and the keys of the `numColors` most
    frequent entries are turned into hex strings. */
module Extraction {

  import opened JsBuiltins
  import opened Seqs
  import opened Ranking
  import opened ColorUtils

  /** A byte of the canvas's RGBA buffer. */
  type Byte = x: int | 0 <= x <= 255

  /** A quantized colour: the key of the frequency table. */
  type Key = (int, int, int)

  /** `Math.round(c / 32) * 32`: the multiple of 32 nearest to `c`, a tie going
      up. Nothing clamps the result, so bytes 240 to 255 give 256. */
  function Quantize(c: nat): (q: int)
    ensures q % 32 == 0 && -16 < q - c <= 16
    ensures q == (c + 16) / 32 * 32
  {
    var k := (c + 16) / 32;
    assert k as real <= c as real / 32.0 + 0.5 < k as real + 1.0;
    Round(c as real / 32.0) * 32
  }

  /** A byte quantizes into [0, 256]. */
  lemma QuantizeRange(c: Byte)
    ensures 0 <= Quantize(c) <= 256
    ensures Quantize(c) == 256 <==> c >= 240
  {
  }

  /** No multiple of 32 is closer to `c` than its quantized value. */
  lemma QuantizeNearest(c: nat, m: int)
    requires m % 32 == 0
    ensures Abs(Quantize(c) - c) <= Abs(m - c)
  {
  }

  function Abs(x: int): nat {
    if x < 0 then -x else x
  }

  /** Quantizing an already quantized value leaves it unchanged. */
  lemma QuantizeIdempotent(c: nat)
    ensures Quantize(Quantize(c)) == Quantize(c)
  {
  }

  /** The number of iterations of the sampling loop, which steps by `4 * step`
      = 16 bytes (4 bytes per pixel, every 4th pixel): the byte offsets 0, 16,
      32, ... below `len`, that is ceil(len / 16). */
  function SampleCount(len: nat): (n: nat)
    ensures len <= 16 * n < len + 16
  {
    (len + 15) / 16
  }

  /** The offset of the `j`-th sample is below the length of the buffer exactly
      when the loop visits it. */
  lemma SampledOffsets(len: nat, j: nat)
    ensures 16 * j < len <==> j < SampleCount(len)
  {
  }

  /** The quantized colour of the pixel whose red byte is at offset `i`. */
  function KeyAt(data: seq<Byte>, i: nat): Key
    requires i + 2 < |data|
  {
    (Quantize(data[i]), Quantize(data[i + 1]), Quantize(data[i + 2]))
  }

  /** The keys of the first `n` sampled pixels, in loop order. */
  function Samples(data: seq<Byte>, n: nat): (keys: seq<Key>)
    requires |data| % 4 == 0 && n <= SampleCount(|data|)
    ensures |keys| == n
  {
    if n == 0 then []
    else
      var i := 16 * (n - 1);
      assert i < |data| && i % 4 == 0;
      Samples(data, n - 1) + [KeyAt(data, i)]
  }

  /** The `j`-th key is that of the pixel at byte offset `16 * j`. */
  lemma {:induction false} SampleAt(data: seq<Byte>, n: nat, j: nat)
    requires |data| % 4 == 0 && n <= SampleCount(|data|) && j < n
    ensures 16 * j + 2 < |data|
    ensures Samples(data, n)[j] == KeyAt(data, 16 * j)
  {
    if j < n - 1 {
      SampleAt(data, n - 1, j);
    } else {
      assert 16 * j < |data| && (16 * j) % 4 == 0;
    }
  }

  /** The frequency table after counting `keys` one after the other. */
  function Counts(keys: seq<Key>): map<Key, nat>
  {
    if keys == [] then map[]
    else
      var freq := Counts(keys[..|keys| - 1]);
      var k := keys[|keys| - 1];
      freq[k := (if k in freq then freq[k] else 0) + 1]
  }

  /** The table holds exactly the counted keys, each with its number of
      occurrences. */
  lemma {:induction false} CountsSpec(keys: seq<Key>)
    ensures forall k :: k in Counts(keys) <==> k in keys
    ensures forall k :: k in Counts(keys) ==> Counts(keys)[k] == multiset(keys)[k]
  {
    if keys != [] {
      var init := keys[..|keys| - 1];
      assert keys == init + [keys[|keys| - 1]];
      CountsSpec(init);
    }
  }

  /** The insertion order of the table: every key, once, where it first occurs. */
  function FirstSeen(keys: seq<Key>): seq<Key>
  {
    if keys == [] then []
    else
      var order := FirstSeen(keys[..|keys| - 1]);
      var k := keys[|keys| - 1];
      if k in order then order else order + [k]
  }

  /** The insertion order lists every counted key exactly once. */
  lemma {:induction false} FirstSeenSpec(keys: seq<Key>)
    ensures NoDup(FirstSeen(keys))
    ensures forall k :: k in FirstSeen(keys) <==> k in keys
  {
    if keys != [] {
      var init := keys[..|keys| - 1];
      assert keys == init + [keys[|keys| - 1]];
      FirstSeenSpec(init);
    }
  }

  /** Keys come in the order of their first occurrence. */
  lemma {:induction false} FirstSeenOrder(keys: seq<Key>, i: nat, j: nat)
    requires i < j < |FirstSeen(keys)|
    ensures Position(keys, FirstSeen(keys)[i]) < Position(keys, FirstSeen(keys)[j])
  {
    var init := keys[..|keys| - 1];
    var k := keys[|keys| - 1];
    var order := FirstSeen(init);
    assert keys == init + [k];
    FirstSeenSpec(init);
    var x, y := FirstSeen(keys)[i], FirstSeen(keys)[j];
    assert x in init;
    PositionAppend(init, [k], x);
    if j < |order| {
      FirstSeenOrder(init, i, j);
      PositionAppend(init, [k], y);
    } else {
      assert y == k && k !in init;
      PositionAppendNew(init, [k], k);
    }
  }

  /** The table has as many keys as the insertion order. */
  lemma {:induction false} DistinctKeys(keys: seq<Key>)
    ensures |FirstSeen(keys)| == |Counts(keys)|
  {
    if keys != [] {
      var init := keys[..|keys| - 1];
      assert keys == init + [keys[|keys| - 1]];
      CountsSpec(init);
      FirstSeenSpec(init);
      DistinctKeys(init);
    }
  }

  /** The sum of the counts in `freq` of the keys of `order` (0 for a key the
      table lacks). */
  function Total(freq: map<Key, nat>, order: seq<Key>): nat
  {
    if order == [] then 0
    else
      var k := order[|order| - 1];
      Total(freq, order[..|order| - 1]) + (if k in freq then freq[k] else 0)
  }

  /** Tables that agree on `order` have the same total over it. */
  lemma {:induction false} TotalAgree(f: map<Key, nat>, g: map<Key, nat>, order: seq<Key>)
    requires forall k :: k in order ==> k in f && k in g && f[k] == g[k]
    ensures Total(f, order) == Total(g, order)
  {
    if order != [] {
      TotalAgree(f, g, order[..|order| - 1]);
    }
  }

  /** Bumping the count of one key listed once raises the total by one. */
  lemma {:induction false} TotalBump(f: map<Key, nat>, order: seq<Key>, k: Key)
    requires forall x :: x in order ==> x in f
    requires NoDup(order) && k in order
    ensures Total(f[k := f[k] + 1], order) == Total(f, order) + 1
  {
    var init := order[..|order| - 1];
    var last := order[|order| - 1];
    assert order == init + [last];
    assert NoDup(init);
    if last == k {
      assert k !in init;
      TotalAgree(f[k := f[k] + 1], f, init);
    } else {
      TotalBump(f, init, k);
    }
  }

  /** The counts add up to the number of keys counted. */
  lemma {:induction false} CountsTotal(keys: seq<Key>)
    ensures Total(Counts(keys), FirstSeen(keys)) == |keys|
  {
    if keys != [] {
      var init := keys[..|keys| - 1];
      var k := keys[|keys| - 1];
      assert keys == init + [k];
      CountsTotal(init);
      CountsSpec(init);
      FirstSeenSpec(init);
      CountAppend(init, k);
      FirstSeenAppend(init, k);
      var f := Counts(init);
      var order := FirstSeen(init);
      if k in f {
        TotalBump(f, order, k);
      } else {
        var g := Counts(keys);
        TotalAgree(g, f, order);
        assert (order + [k])[..|order|] == order;
        assert Total(g, order + [k]) == Total(g, order) + 1;
      }
    }
  }

  /** `Object.entries(freq)`: the pairs of the table in insertion order. */
  function Entries(freq: map<Key, nat>, order: seq<Key>): (entries: seq<(Key, nat)>)
    requires forall k :: k in order ==> k in freq
    ensures |entries| == |order|
    ensures forall i :: 0 <= i < |order| ==> entries[i] == (order[i], freq[order[i]])
  {
    seq(|order|, i requires 0 <= i < |order| => (order[i], freq[order[i]]))
  }

  /** The entries of a table sorted by descending count. */
  function Sorted(freq: map<Key, nat>, order: seq<Key>): seq<(Key, nat)>
    requires forall k :: k in order ==> k in freq
  {
    SortByCount(Entries(freq, order))
  }

  /** `Object.entries` of a table lists each key once, with its own count, at
      the key's place in the insertion order. */
  lemma EntriesOfTable(freq: map<Key, nat>, order: seq<Key>)
    requires OrderedTable(freq, order)
    ensures var entries := Entries(freq, order);
      && (forall k :: k in freq ==> Position(order, k) < |entries| && entries[Position(order, k)] == (k, freq[k]))
      && (forall i, j :: 0 <= i < j < |entries| ==> entries[i].0 != entries[j].0)
  {
  }

  /** `.sort((a, b) => b[1] - a[1]).slice(0, n)` followed by taking the key of
      each entry. */
  function Top(freq: map<Key, nat>, order: seq<Key>, n: nat): (top: seq<Key>)
    requires forall k :: k in order ==> k in freq
  {
    var sorted := Sorted(freq, order);
    seq(Min(n, |sorted|), i requires 0 <= i < Min(n, |sorted|) => sorted[i].0)
  }

  /** The position of a key in the insertion order. */
  function InsertionRank(order: seq<Key>): Key -> int {
    k => Position(order, k)
  }

  /** A table whose keys are exactly those of its insertion order, each once. */
  ghost predicate OrderedTable(freq: map<Key, nat>, order: seq<Key>) {
    NoDup(order) && forall k :: k in freq <==> k in order
  }

  /** Sorting keeps the entries: one per key, each with its own count. */
  lemma SortedEntries(freq: map<Key, nat>, order: seq<Key>)
    requires OrderedTable(freq, order)
    ensures var sorted := Sorted(freq, order);
      && |sorted| == |order|
      && (forall i :: 0 <= i < |sorted| ==> sorted[i].0 in freq && sorted[i].1 == freq[sorted[i].0])
  {
    var entries := Entries(freq, order);
    var sorted := Sorted(freq, order);
    assert |sorted| == |entries| by {
      assert |multiset(sorted)| == |multiset(entries)|;
    }
    forall i | 0 <= i < |sorted| ensures sorted[i].0 in freq && sorted[i].1 == freq[sorted[i].0] {
      assert sorted[i] in multiset(entries);
    }
  }

  /** Every key of the table has its entry somewhere in the sorted entries. */
  lemma SortedIndexOf(freq: map<Key, nat>, order: seq<Key>, k: Key) returns (p: nat)
    requires OrderedTable(freq, order) && k in freq
    ensures p < |Sorted(freq, order)| && Sorted(freq, order)[p] == (k, freq[k])
  {
    var entries := Entries(freq, order);
    assert entries[Position(order, k)] == (k, freq[k]);
    assert (k, freq[k]) in multiset(Sorted(freq, order));
    p :| p < |Sorted(freq, order)| && Sorted(freq, order)[p] == (k, freq[k]);
  }

  /** No key appears twice among the sorted entries. */
  lemma SortedDistinct(freq: map<Key, nat>, order: seq<Key>)
    requires OrderedTable(freq, order)
    ensures var sorted := Sorted(freq, order);
      forall i, j :: 0 <= i < j < |sorted| ==> sorted[i].0 != sorted[j].0
  {
    var entries := Entries(freq, order);
    assert NoDup(entries) by {
      forall i, j | 0 <= i < j < |entries| ensures entries[i] != entries[j] {
        assert entries[i].0 == order[i] && entries[j].0 == order[j];
      }
    }
    NoDupPermutation(entries, Sorted(freq, order));
    SortedEntries(freq, order);
  }

  /** Sorted entries come by descending count and, for equal counts, in
      insertion order. */
  lemma SortedRanked(freq: map<Key, nat>, order: seq<Key>)
    requires OrderedTable(freq, order)
    ensures StrictlyRanked(Sorted(freq, order), InsertionRank(order))
  {
    var entries := Entries(freq, order);
    var pos := InsertionRank(order);
    assert Increasing(entries, pos) by {
      forall i, j | 0 <= i < j < |entries| ensures pos(entries[i].0) < pos(entries[j].0) {
        PositionOfNoDup(order, i);
        PositionOfNoDup(order, j);
      }
    }
    SortRanked(entries, pos);
  }

  /** The result is the keys of the first `min(n, number of entries)` sorted
      entries. */
  lemma TopPrefix(freq: map<Key, nat>, order: seq<Key>, n: nat)
    requires forall k :: k in order ==> k in freq
    ensures var top := Top(freq, order, n); var sorted := Sorted(freq, order);
      |top| == Min(n, |sorted|) && forall i :: 0 <= i < |top| ==> top[i] == sorted[i].0
  {
  }

  /** The result holds `min(n, number of keys)` keys and is never padded. */
  lemma TopLength(freq: map<Key, nat>, order: seq<Key>, n: nat)
    requires OrderedTable(freq, order)
    ensures |Top(freq, order, n)| == Min(n, |order|)
  {
    SortedEntries(freq, order);
    TopPrefix(freq, order, n);
  }

  /** The result holds distinct keys of the table. */
  lemma TopDistinct(freq: map<Key, nat>, order: seq<Key>, n: nat)
    requires OrderedTable(freq, order)
    ensures var top := Top(freq, order, n);
      NoDup(top) && forall i :: 0 <= i < |top| ==> top[i] in freq
  {
    SortedEntries(freq, order);
    SortedDistinct(freq, order);
    TopPrefix(freq, order, n);
  }

  /** The result is by descending count and, for equal counts, in insertion
      order. */
  lemma TopOrdered(freq: map<Key, nat>, order: seq<Key>, n: nat, i: nat, j: nat)
    requires OrderedTable(freq, order)
    requires i < j < |Top(freq, order, n)|
    ensures var top := Top(freq, order, n);
      top[i] in freq && top[j] in freq &&
      (freq[top[i]] > freq[top[j]] ||
       (freq[top[i]] == freq[top[j]] && Position(order, top[i]) < Position(order, top[j])))
  {
    var sorted := Sorted(freq, order);
    SortedEntries(freq, order);
    SortedRanked(freq, order);
    TopPrefix(freq, order, n);
    assert RankedBefore(sorted[i], sorted[j], InsertionRank(order));
  }

  /** A key left out means the result is full, and every key kept has at least
      its count; a kept key with the same count was inserted before it. */
  lemma TopLeftOut(freq: map<Key, nat>, order: seq<Key>, n: nat, k: Key)
    requires OrderedTable(freq, order)
    requires k in freq && k !in Top(freq, order, n)
    ensures var top := Top(freq, order, n);
      |top| == n &&
      forall i :: 0 <= i < n ==>
        (top[i] in freq && freq[k] <= freq[top[i]] &&
         (freq[k] == freq[top[i]] ==> Position(order, top[i]) < Position(order, k)))
  {
    var sorted := Sorted(freq, order);
    var top := Top(freq, order, n);
    var p := SortedIndexOf(freq, order, k);
    TopPrefix(freq, order, n);
    assert |top| <= p;
    SortedEntries(freq, order);
    SortedRanked(freq, order);
    forall i | 0 <= i < n
      ensures top[i] in freq && freq[k] <= freq[top[i]] &&
        (freq[k] == freq[top[i]] ==> Position(order, top[i]) < Position(order, k))
    {
      assert RankedBefore(sorted[i], sorted[p], InsertionRank(order));
    }
  }

  /** One more iteration samples the pixel at offset `16 * n`. */
  lemma SampleStep(data: seq<Byte>, n: nat)
    requires |data| % 4 == 0 && n < SampleCount(|data|)
    ensures 16 * n + 2 < |data|
    ensures Samples(data, n + 1) == Samples(data, n) + [KeyAt(data, 16 * n)]
  {
    SampleFits(|data|, n);
  }

  /** The pixel of a sampled offset lies wholly inside the buffer. */
  lemma SampleFits(len: nat, n: nat)
    requires len % 4 == 0 && n < SampleCount(len)
    ensures 16 * n + 3 < len
  {
    assert 16 * n + 16 <= 16 * SampleCount(len);
    var q := len / 4;
    assert len == 4 * q;
    assert 4 * n < q;
  }

  /** Counting one more key bumps its count, starting from 0 when it is new. */
  lemma CountAppend(keys: seq<Key>, k: Key)
    ensures var freq := Counts(keys);
      Counts(keys + [k]) == freq[k := (if k in freq then freq[k] else 0) + 1]
  {
    assert (keys + [k])[..|keys|] == keys;
  }

  /** A key new to the table joins the end of the insertion order; a known one
      changes nothing. */
  lemma FirstSeenAppend(keys: seq<Key>, k: Key)
    ensures FirstSeen(keys + [k]) == if k in Counts(keys) then FirstSeen(keys) else FirstSeen(keys) + [k]
  {
    CountsSpec(keys);
    FirstSeenSpec(keys);
    assert (keys + [k])[..|keys|] == keys;
  }

  /** The dominant colours of an RGBA buffer, most frequent first. */
  function DominantColors(data: seq<Byte>, n: nat): seq<Key>
    requires |data| % 4 == 0
  {
    var keys := Samples(data, SampleCount(|data|));
    CountsSpec(keys);
    FirstSeenSpec(keys);
    Top(Counts(keys), FirstSeen(keys), n)
  }

  /** The table built from any sequence of keys lists each key once. */
  lemma TableOfKeys(keys: seq<Key>)
    ensures OrderedTable(Counts(keys), FirstSeen(keys))
  {
    CountsSpec(keys);
    FirstSeenSpec(keys);
  }

  /** As many colours as asked for, or as there are distinct sampled colours if
      fewer; the counts of the table add up to the number of sampled pixels. */
  lemma DominantLength(data: seq<Byte>, n: nat)
    requires |data| % 4 == 0
    ensures var keys := Samples(data, SampleCount(|data|));
      && |DominantColors(data, n)| == Min(n, |Counts(keys)|)
      && Total(Counts(keys), FirstSeen(keys)) == SampleCount(|data|)
  {
    var keys := Samples(data, SampleCount(|data|));
    TableOfKeys(keys);
    TopLength(Counts(keys), FirstSeen(keys), n);
    DistinctKeys(keys);
    CountsTotal(keys);
  }

  /** Every colour returned is a sampled colour, and none is returned twice. */
  lemma DominantDistinct(data: seq<Byte>, n: nat)
    requires |data| % 4 == 0
    ensures var keys := Samples(data, SampleCount(|data|));
      var top := DominantColors(data, n);
      NoDup(top) && forall i :: 0 <= i < |top| ==> top[i] in keys
  {
    var keys := Samples(data, SampleCount(|data|));
    TableOfKeys(keys);
    CountsSpec(keys);
    TopDistinct(Counts(keys), FirstSeen(keys), n);
  }

  /** A colour comes before another when more sampled pixels have it, or as
      many and it was sampled first. */
  lemma DominantOrdered(data: seq<Byte>, n: nat, i: nat, j: nat)
    requires |data| % 4 == 0 && i < j < |DominantColors(data, n)|
    ensures var keys := Samples(data, SampleCount(|data|));
      var top := DominantColors(data, n);
      var m := multiset(keys);
      m[top[i]] > m[top[j]] ||
      (m[top[i]] == m[top[j]] && Position(keys, top[i]) < Position(keys, top[j]))
  {
    var keys := Samples(data, SampleCount(|data|));
    var freq, order := Counts(keys), FirstSeen(keys);
    var top := DominantColors(data, n);
    TableOfKeys(keys);
    CountsSpec(keys);
    TopOrdered(freq, order, n, i, j);
    var a, b := Position(order, top[i]), Position(order, top[j]);
    if a < b {
      FirstSeenOrder(keys, a, b);
    }
  }

  /** A sampled colour left out means the result is full and no colour kept is
      rarer than it; a kept colour sampled as often was sampled first. */
  lemma DominantLeftOut(data: seq<Byte>, n: nat, k: Key)
    requires |data| % 4 == 0
    requires k in Samples(data, SampleCount(|data|)) && k !in DominantColors(data, n)
    ensures var keys := Samples(data, SampleCount(|data|));
      var top := DominantColors(data, n);
      var m := multiset(keys);
      |top| == n &&
      forall i :: 0 <= i < n ==>
        (m[k] <= m[top[i]] && (m[k] == m[top[i]] ==> Position(keys, top[i]) < Position(keys, k)))
  {
    var keys := Samples(data, SampleCount(|data|));
    var freq, order := Counts(keys), FirstSeen(keys);
    var top := DominantColors(data, n);
    var m := multiset(keys);
    TableOfKeys(keys);
    CountsSpec(keys);
    TopLeftOut(freq, order, n, k);
    forall i | 0 <= i < n
      ensures m[k] <= m[top[i]] &&
        (m[k] == m[top[i]] ==> Position(keys, top[i]) < Position(keys, k))
    {
      var a, b := Position(order, top[i]), Position(order, k);
      if a < b {
        FirstSeenOrder(keys, a, b);
      }
    }
  }

  /** A buffer of 16 bytes (four pixels) has only its first pixel sampled, so
      that pixel's colour is the only one found, whatever the other three
      hold. */
  lemma SixteenBytes(data: seq<Byte>, n: nat)
    requires |data| == 16 && n >= 1
    ensures DominantColors(data, n) == [KeyAt(data, 0)]
  {
    var k := KeyAt(data, 0);
    var keys := Samples(data, SampleCount(16));
    assert SampleCount(16) == 1;
    assert keys == [k];
    assert Counts(keys) == map[k := 1];
    assert FirstSeen(keys) == [k];
    TableOfKeys(keys);
    SortedEntries(Counts(keys), FirstSeen(keys));
    TopPrefix(Counts(keys), FirstSeen(keys), n);
  }

  /** A channel of 250 quantizes to 256, past the largest byte. */
  lemma QuantizeOverflows()
    ensures Quantize(250) == 256
  {
  }

  /** The sampling loop: visits byte offsets 0, 16, 32, ... and updates the
      frequency table and its insertion order in place. */
  method CountColors(data: seq<Byte>) returns (freq: map<Key, nat>, order: seq<Key>)
    requires |data| % 4 == 0
    ensures var keys := Samples(data, SampleCount(|data|));
      freq == Counts(keys) && order == FirstSeen(keys)
  {
    freq := map[];
    order := [];
    var i := 0;
    ghost var n := 0;
    ghost var keys: seq<Key> := [];
    while i < |data|
      invariant i == 16 * n && n <= SampleCount(|data|)
      invariant keys == Samples(data, n)
      invariant freq == Counts(keys) && order == FirstSeen(keys)
    {
      SampleStep(data, n);
      var r := Quantize(data[i]);
      var g := Quantize(data[i + 1]);
      var b := Quantize(data[i + 2]);
      var key := (r, g, b);
      assert key == KeyAt(data, 16 * n);
      CountAppend(keys, key);
      FirstSeenAppend(keys, key);
      if key !in freq {
        order := order + [key];
      }
      freq := freq[key := (if key in freq then freq[key] else 0) + 1];
      i := i + 16;
      n := n + 1;
      keys := keys + [key];
    }
    SampledOffsets(|data|, n);
  }

  /** `handleFile`'s extraction: count the sampled colours, rank them and format
      the `numColors` best as hex strings. */
  method ExtractSwatches(data: seq<Byte>, numColors: nat, utils: Converters) returns (swatches: seq<string>)
    requires |data| % 4 == 0
    ensures var top := DominantColors(data, numColors);
      |swatches| == |top| &&
      forall i :: 0 <= i < |top| ==> swatches[i] == utils.toHex(top[i].0, top[i].1, top[i].2)
  {
    var freq, order := CountColors(data);
    CountsSpec(Samples(data, SampleCount(|data|)));
    FirstSeenSpec(Samples(data, SampleCount(|data|)));
    var top := Top(freq, order, numColors);
    swatches := seq(|top|, i requires 0 <= i < |top| => utils.toHex(top[i].0, top[i].1, top[i].2));
  }
}
