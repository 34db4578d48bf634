/** The labeller's equivalence table `labeltable[256]`: provisional label `a`
    (allocated in 1..L-1) maps to the canonical label of its class. */
module LabelTable {

  const TableSize := 256

  /** The eagerly rewritten forest the scan keeps: every allocated label points
      straight at its class representative (`t[t[a]] == t[a]`), which is never
      larger than it (`t[a] <= a`); every entry is an index of the table. */
  predicate Forest(t: seq<int>, L: int) {
    && |t| == TableSize
    && 1 <= L <= TableSize
    && (forall a :: 0 <= a < TableSize ==> 0 <= t[a] < TableSize)
    && (forall a :: 1 <= a < L ==> 1 <= t[a] <= a && t[t[a]] == t[a])
  }

  /** The rewrite loop run once per merged neighbour (lines 1393-1399 and its three
      copies): every allocated entry equal to `from` is redirected to `to`. */
  method Relabel(t: seq<int>, L: int, from: int, to: int) returns (t': seq<int>)
    requires |t| == TableSize && 1 <= L <= TableSize
    ensures |t'| == TableSize
    ensures forall a :: 1 <= a < L ==> t'[a] == (if t[a] == from then to else t[a])
    ensures forall a :: 0 <= a < TableSize && !(1 <= a < L) ==> t'[a] == t[a]
  {
    t' := t;
    var a := 1;
    while a < L
      invariant 1 <= a <= L
      invariant |t'| == TableSize
      invariant forall b :: 1 <= b < a ==> t'[b] == (if t[b] == from then to else t[b])
      invariant forall b :: 0 <= b < TableSize && !(1 <= b < a) ==> t'[b] == t[b]
    {
      if t'[a] == from {
        t' := t'[a := to];
      }
      a := a + 1;
    }
  }

  /** Merging the class of representative `from` into that of the smaller
      representative `to` keeps the table a forest. */
  lemma RelabelKeepsForest(t: seq<int>, t': seq<int>, L: int, from: int, to: int)
    requires Forest(t, L)
    requires 1 <= to < from < L && t[to] == to && t[from] == from
    requires |t'| == TableSize
    requires forall a :: 1 <= a < L ==> t'[a] == (if t[a] == from then to else t[a])
    requires forall a :: 0 <= a < TableSize && !(1 <= a < L) ==> t'[a] == t[a]
    ensures Forest(t', L)
  {
    forall a | 1 <= a < L
      ensures 1 <= t'[a] <= a && t'[t'[a]] == t'[a]
    {
      if t[a] == from {
        assert t'[to] == to;
      } else {
        assert t'[t[a]] == t[t[a]];
      }
    }
  }

  /** Step 1 of the blob count (lines 1462-1468): for each `a`, zero every later
      entry equal to `t[a]`. On a forest only the representatives survive, each
      holding its own number. */
  method Dedupe(t: seq<int>, L: int) returns (t': seq<int>)
    requires Forest(t, L)
    ensures |t'| == TableSize
    ensures forall a :: 1 <= a < L ==> t'[a] == (if t[a] == a then a else 0)
    ensures forall a :: 0 <= a < TableSize && !(1 <= a < L) ==> t'[a] == t[a]
  {
    t' := t;
    var a := 1;
    while a < L - 1
      invariant 1 <= a
      invariant a <= L - 1 || a == 1
      invariant |t'| == TableSize
      invariant forall c :: 1 <= c < L ==> t'[c] == (if t[c] < a && t[c] != c then 0 else t[c])
      invariant forall c :: 0 <= c < TableSize && !(1 <= c < L) ==> t'[c] == t[c]
    {
      // t'[a] is a when a is a representative and 0 otherwise
      var b := a + 1;
      while b < L
        invariant a + 1 <= b <= L
        invariant |t'| == TableSize
        invariant forall c :: 1 <= c < L ==>
          t'[c] == (if (t[c] < a || (t[c] == a && a < c < b)) && t[c] != c then 0 else t[c])
        invariant forall c :: 0 <= c < TableSize && !(1 <= c < L) ==> t'[c] == t[c]
      {
        if t'[a] == t'[b] {
          t' := t'[b := 0];
        }
        b := b + 1;
      }
      a := a + 1;
    }
  }

  /** The representatives among labels `1..n-1`, in increasing order. */
  function RootsBelow(t: seq<int>, n: int): seq<int>
    requires n <= |t|
    decreases n
  {
    if n <= 1 then [] else RootsBelow(t, n - 1) + (if t[n - 1] == n - 1 then [n - 1] else [])
  }

  /** The nonzero entries among `s[1..n-1]`, in index order. */
  function NonZeroBelow(s: seq<int>, n: int): seq<int>
    requires n <= |s|
    decreases n
  {
    if n <= 1 then [] else NonZeroBelow(s, n - 1) + (if s[n - 1] != 0 then [s[n - 1]] else [])
  }

  /** The representative list holds exactly the labels `r` in 1..n-1 with `t[r] == r`,
      strictly increasing. */
  lemma {:induction false} RootsBelowSpec(t: seq<int>, n: int)
    requires n <= |t|
    ensures forall r :: r in RootsBelow(t, n) <==> 1 <= r < n && t[r] == r
    ensures forall i, j :: 0 <= i < j < |RootsBelow(t, n)| ==> RootsBelow(t, n)[i] < RootsBelow(t, n)[j]
    decreases n
  {
    if n > 1 {
      RootsBelowSpec(t, n - 1);
      var prev := RootsBelow(t, n - 1);
      forall i | 0 <= i < |prev|
        ensures prev[i] < n - 1
      {
        assert prev[i] in prev;
      }
    }
  }

  /** A strictly increasing sequence has as many distinct elements as entries. */
  lemma {:induction false} IncreasingCard(s: seq<int>)
    requires forall i, j :: 0 <= i < j < |s| ==> s[i] < s[j]
    ensures |set r | r in s| == |s|
  {
    if |s| > 0 {
      var n := |s|;
      var init := s[..n - 1];
      IncreasingCard(init);
      assert (set r | r in s) == (set r | r in init) + {s[n - 1]};
      forall i | 0 <= i < n - 1
        ensures init[i] != s[n - 1]
      {
        assert s[i] < s[n - 1];
      }
      assert s[n - 1] !in (set r | r in init);
    }
  }

  /** After `Dedupe`, the surviving entries are exactly the representatives. */
  lemma {:induction false} SurvivorsAreRoots(t: seq<int>, s: seq<int>, n: int)
    requires n <= |t| == |s|
    requires forall a :: 1 <= a < n ==> s[a] == (if t[a] == a then a else 0)
    ensures NonZeroBelow(s, n) == RootsBelow(t, n)
    decreases n
  {
    if n > 1 {
      SurvivorsAreRoots(t, s, n - 1);
    }
  }

  /** Step 2 of the blob count (lines 1470-1478): moves the nonzero entries of
      `1..L-1` to the front of the table, in order, and counts them. */
  method Compact(t: seq<int>, L: int) returns (t': seq<int>, count: int)
    requires |t| == TableSize && 1 <= L <= TableSize
    ensures |t'| == TableSize
    ensures 0 <= count == |NonZeroBelow(t, L)| <= L - 1
    ensures t'[..count] == NonZeroBelow(t, L)
  {
    t' := t;
    count := 0;
    var a := 1;
    while a < L
      invariant 1 <= a <= L
      invariant |t'| == TableSize
      invariant 0 <= count == |NonZeroBelow(t, a)| <= a - 1
      invariant t'[..count] == NonZeroBelow(t, a)
      invariant forall c :: a <= c < TableSize ==> t'[c] == t[c]
    {
      if t'[a] != 0 {
        t' := t'[count := t'[a]];
        count := count + 1;
      }
      a := a + 1;
    }
  }
}
