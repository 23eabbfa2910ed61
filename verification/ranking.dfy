/**
  Ranking of the kept subreddits: `list.sort(key=lambda x: x[1],
  reverse=True)` (a stable sort, descending by subscriber count) followed by
  the `[:top_n]` slice.
 */
module Ranking {
  import opened Wrappers

  /** A kept `(name, subscribers)` pair. */
  datatype Entry = Entry(name: string, subscribers: int)

  predicate SortedDesc(s: seq<Entry>) {
    forall i, j :: 0 <= i < j < |s| ==> s[i].subscribers >= s[j].subscribers
  }

  /** The entries with `c` subscribers, in their order in `s`. */
  function WithCount(s: seq<Entry>, c: int): seq<Entry> {
    if s == [] then []
    else (if s[0].subscribers == c then [s[0]] else []) + WithCount(s[1..], c)
  }

  lemma {:induction false} WithCountAppend(a: seq<Entry>, b: seq<Entry>, c: int)
    ensures WithCount(a + b, c) == WithCount(a, c) + WithCount(b, c)
    decreases |a|
  {
    if a == [] {
      assert a + b == b;
    } else {
      var head := if a[0].subscribers == c then [a[0]] else [];
      assert (a + b)[1..] == a[1..] + b;
      assert (a + b)[0] == a[0];
      assert WithCount(a + b, c) == head + WithCount(a[1..] + b, c);
      assert WithCount(a, c) == head + WithCount(a[1..], c);
      WithCountAppend(a[1..], b, c);
      ConcatAssoc(head, WithCount(a[1..], c), WithCount(b, c));
    }
  }

  /** In a descending sequence whose head has fewer than `c` subscribers,
      nothing has `c`. */
  lemma {:induction false} WithCountNone(s: seq<Entry>, c: int)
    requires SortedDesc(s)
    requires s != [] ==> s[0].subscribers < c
    ensures WithCount(s, c) == []
    decreases |s|
  {
    if s != [] {
      WithCountNone(s[1..], c);
    }
  }

  /** An entry at least as large as the head of a descending sequence
      extends it. */
  lemma SortedCons(e: Entry, t: seq<Entry>)
    requires SortedDesc(t)
    requires t != [] ==> e.subscribers >= t[0].subscribers
    ensures SortedDesc([e] + t)
  {
    var r := [e] + t;
    forall i, j | 0 <= i < j < |r| ensures r[i].subscribers >= r[j].subscribers {
      if i > 0 {
        assert r[i] == t[i - 1] && r[j] == t[j - 1];
      } else {
        assert r[j] == t[j - 1];
      }
    }
  }

  /** Places `x` after every entry with at least as many subscribers: the
      step that keeps equal counts in their original order. */
  function Insert(x: Entry, s: seq<Entry>): (r: seq<Entry>)
    requires SortedDesc(s)
    ensures SortedDesc(r)
    ensures multiset(r) == multiset(s) + multiset{x}
    ensures |r| == |s| + 1
    ensures r != [] && (r[0] == x || (s != [] && r[0] == s[0]))
  {
    if s == [] then [x]
    else if x.subscribers > s[0].subscribers then
      SortedCons(x, s);
      [x] + s
    else
      var tail := s[1..];
      assert SortedDesc(tail);
      var rest := Insert(x, tail);
      assert s == [s[0]] + tail;
      SortedCons(s[0], rest);
      [s[0]] + rest
  }

  /** `list.sort(key=subscribers, reverse=True)`, as an insertion sort that
      adds the entries in input order. */
  function SortDesc(s: seq<Entry>): (r: seq<Entry>)
    ensures SortedDesc(r)
    ensures multiset(r) == multiset(s)
    ensures |r| == |s|
  {
    if s == [] then []
    else
      assert s == s[..|s| - 1] + [s[|s| - 1]];
      Insert(s[|s| - 1], SortDesc(s[..|s| - 1]))
  }

  lemma WithCountOne(x: Entry, c: int)
    ensures WithCount([x], c) == if x.subscribers == c then [x] else []
  {
    assert [x][1..] == [];
  }

  /** Inserting `x` adds it last among the entries with its count. */
  lemma {:induction false} InsertStable(x: Entry, s: seq<Entry>, c: int)
    requires SortedDesc(s)
    ensures WithCount(Insert(x, s), c)
         == WithCount(s, c) + (if x.subscribers == c then [x] else [])
    decreases |s|
  {
    var tail := if x.subscribers == c then [x] else [];
    WithCountOne(x, c);
    if s == [] {
      assert Insert(x, s) == [x];
    } else if x.subscribers > s[0].subscribers {
      assert Insert(x, s) == [x] + s;
      WithCountAppend([x], s, c);
      if x.subscribers == c {
        WithCountNone(s, c);
      }
    } else {
      var s0, s1 := s[0], s[1..];
      assert s == [s0] + s1;
      var rest := Insert(x, s1);
      assert Insert(x, s) == [s0] + rest;
      InsertStable(x, s1, c);
      WithCountAppend([s0], rest, c);
      WithCountAppend([s0], s1, c);
      var w0, w1, wr := WithCount([s0], c), WithCount(s1, c), WithCount(rest, c);
      assert WithCount(Insert(x, s), c) == w0 + wr;
      assert wr == w1 + tail;
      assert WithCount(s, c) == w0 + w1;
      ConcatAssoc(w0, w1, tail);
    }
  }

  /** The sort is stable: the entries with any one count come out in the
      order they went in. */
  lemma {:induction false} SortStable(s: seq<Entry>, c: int)
    ensures WithCount(SortDesc(s), c) == WithCount(s, c)
    decreases |s|
  {
    if s == [] {
      assert SortDesc(s) == [];
    } else {
      var init, x := s[..|s| - 1], s[|s| - 1];
      var sorted := SortDesc(init);
      assert s == init + [x];
      assert SortDesc(s) == Insert(x, sorted);
      SortStable(init, c);
      InsertStable(x, sorted, c);
      WithCountAppend(init, [x], c);
      WithCountOne(x, c);
      calc {
        WithCount(SortDesc(s), c);
        WithCount(sorted, c) + WithCount([x], c);
        WithCount(init, c) + WithCount([x], c);
        WithCount(init + [x], c);
      }
    }
  }

  /** Whether `[:n]` keeps index `j` of a sequence of length `len`: a
      negative stop counts from the end. */
  predicate Selected(j: nat, len: nat, n: int) {
    if n >= 0 then j < n else j < len + n
  }

  /** The length of `s[:n]` for `len(s) == len`: the slice keeps exactly
      the indices before the stop. */
  function SliceStop(len: nat, n: int): (k: nat)
    ensures k <= len
    ensures forall j: nat :: j < len ==> (j < k <==> Selected(j, len, n))
  {
    if n >= 0 then Min(n, len) else Max(0, len + n)
  }

  function Names(s: seq<Entry>): (r: seq<string>)
    ensures |r| == |s|
    ensures forall k :: 0 <= k < |s| ==> r[k] == s[k].name
  {
    if s == [] then [] else [s[0].name] + Names(s[1..])
  }

  lemma NamesMultiset(s: seq<Entry>, n: nat)
    requires n <= |s|
    ensures multiset(Names(s[..n])) <= multiset(Names(s))
  {
    assert s == s[..n] + s[n..];
    NamesAppend(s[..n], s[n..]);
    assert multiset(Names(s)) == multiset(Names(s[..n])) + multiset(Names(s[n..]));
  }

  lemma {:induction false} NamesAppend(a: seq<Entry>, b: seq<Entry>)
    ensures Names(a + b) == Names(a) + Names(b)
    decreases |a|
  {
    if a == [] {
      assert a + b == b;
    } else {
      assert (a + b)[1..] == a[1..] + b;
      NamesAppend(a[1..], b);
    }
  }

  /** `[name for name, _ in sorted[:top_n]]`: the names of the first
      `top_n` entries (all but the last `-top_n` when it is negative). */
  function TopNames(sorted: seq<Entry>, topN: int): (r: seq<string>)
    ensures |r| == SliceStop(|sorted|, topN)
    ensures forall k :: 0 <= k < |r| ==> r[k] == sorted[k].name
    ensures multiset(r) <= multiset(Names(sorted))
  {
    var k := SliceStop(|sorted|, topN);
    NamesMultiset(sorted, k);
    Names(sorted[..k])
  }
}
