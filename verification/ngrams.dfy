/**
 * nltk's `everygrams(sequence, max_len=m)`: every contiguous run of length
 * 1 to m, enumerated by start position and, for one start, by length (the
 * sliding-window order of nltk 3.5 and later).
 */
module NGrams {

  function Min(a: nat, b: nat): nat {
    if a <= b then a else b
  }

  /** The grams that start at the first position: `xs[..1]`, ..., `xs[..n]`. */
  function Prefixes<T>(xs: seq<T>, n: nat): seq<seq<T>>
    requires n <= |xs|
  {
    seq(n, j requires 0 <= j < n => xs[..j + 1])
  }

  /** `list(everygrams(xs, max_len=maxLen))` */
  function Everygrams<T>(xs: seq<T>, maxLen: nat): (grams: seq<seq<T>>)
    ensures forall j :: 0 <= j < |grams| ==> 1 <= |grams[j]| <= maxLen
    decreases |xs|
  {
    if |xs| == 0 then []
    else Prefixes(xs, Min(maxLen, |xs|)) + Everygrams(xs[1..], maxLen)
  }

  /** A window `(start, length)` that fits a `k`-element sequence, for grams of at most `maxLen` elements. */
  predicate IsWindow(p: (nat, nat), k: nat, maxLen: nat) {
    1 <= p.1 <= maxLen && p.0 + p.1 <= k
  }

  /** Lexicographic order on windows: by start, then by length. */
  predicate WindowBefore(p: (nat, nat), q: (nat, nat)) {
    p.0 < q.0 || (p.0 == q.0 && p.1 < q.1)
  }

  /**
   * The windows of a `k`-element sequence that start at `i` or later,
   * listed by start and then by length.
   */
  function Windows(k: nat, maxLen: nat, i: nat): (ws: seq<(nat, nat)>)
    ensures forall j :: 0 <= j < |ws| ==> i <= ws[j].0 && IsWindow(ws[j], k, maxLen)
    decreases k - i
  {
    if k <= i then []
    else
      var n := Min(maxLen, k - i);
      seq(n, l requires 0 <= l < n => (i, l + 1)) + Windows(k, maxLen, i + 1)
  }

  /** Every window that starts at `i` or later is listed by `Windows(k, maxLen, i)`. */
  lemma {:induction false} WindowsComplete(k: nat, maxLen: nat, i: nat, p: (nat, nat))
    requires i <= p.0 && IsWindow(p, k, maxLen)
    ensures p in Windows(k, maxLen, i)
    decreases p.0 - i
  {
    var n := Min(maxLen, k - i);
    var head := seq(n, l requires 0 <= l < n => (i, l + 1));
    assert Windows(k, maxLen, i) == head + Windows(k, maxLen, i + 1);
    if p.0 == i {
      assert head[p.1 - 1] == p;
    } else {
      WindowsComplete(k, maxLen, i + 1, p);
    }
  }

  /** `Windows` lists its windows in strictly increasing order, hence each one once. */
  lemma {:induction false} WindowsSorted(k: nat, maxLen: nat, i: nat)
    ensures forall a, b :: 0 <= a < b < |Windows(k, maxLen, i)| ==>
      WindowBefore(Windows(k, maxLen, i)[a], Windows(k, maxLen, i)[b])
    decreases k - i
  {
    if i < k {
      var n := Min(maxLen, k - i);
      var head := seq(n, l requires 0 <= l < n => (i, l + 1));
      var tail := Windows(k, maxLen, i + 1);
      var ws := Windows(k, maxLen, i);
      assert ws == head + tail;
      WindowsSorted(k, maxLen, i + 1);
      forall a, b | 0 <= a < b < |ws|
        ensures WindowBefore(ws[a], ws[b])
      {
        if b < n {
          assert ws[a] == (i, a + 1) && ws[b] == (i, b + 1);
        } else if a < n {
          assert ws[a].0 == i && ws[b] == tail[b - n];
        } else {
          assert ws[a] == tail[a - n] && ws[b] == tail[b - n];
        }
      }
    }
  }

  /** Position by position, `grams` are the slices of `xs` at the windows `ws`. */
  ghost predicate SlicesAt<T>(xs: seq<T>, grams: seq<seq<T>>, ws: seq<(nat, nat)>) {
    |grams| == |ws| &&
    forall j :: 0 <= j < |ws| ==> ws[j].0 + ws[j].1 <= |xs| && grams[j] == xs[ws[j].0..ws[j].0 + ws[j].1]
  }

  /** Slices at windows concatenate. */
  lemma SlicesAtConcat<T>(xs: seq<T>, g1: seq<seq<T>>, w1: seq<(nat, nat)>, g2: seq<seq<T>>, w2: seq<(nat, nat)>)
    requires SlicesAt(xs, g1, w1) && SlicesAt(xs, g2, w2)
    ensures SlicesAt(xs, g1 + g2, w1 + w2)
  {
    forall j | |w1| <= j < |w1 + w2|
      ensures (w1 + w2)[j] == w2[j - |w1|] && (g1 + g2)[j] == g2[j - |w1|]
    {
    }
  }

  /** The grams starting at `i` are the slices at the windows `(i, 1)`, ..., `(i, n)`. */
  lemma PrefixesAtWindows<T>(xs: seq<T>, i: nat, n: nat)
    requires i + n <= |xs|
    ensures SlicesAt(xs, Prefixes(xs[i..], n), seq(n, l requires 0 <= l < n => (i, l + 1)))
  {
    var headG := Prefixes(xs[i..], n);
    forall j | 0 <= j < n
      ensures headG[j] == xs[i..i + j + 1]
    {
      assert headG[j] == xs[i..][..j + 1];
    }
  }

  /**
   * The grams of the suffix `xs[i..]` are the slices of `xs` at the windows
   * that start at `i` or later, in the same order.
   */
  lemma {:induction false} EverygramsAtWindows<T>(xs: seq<T>, maxLen: nat, i: nat)
    requires i <= |xs|
    ensures SlicesAt(xs, Everygrams(xs[i..], maxLen), Windows(|xs|, maxLen, i))
    decreases |xs| - i
  {
    if i < |xs| {
      var n := Min(maxLen, |xs| - i);
      EverygramsAtWindows(xs, maxLen, i + 1);
      assert xs[i..][1..] == xs[i + 1..];
      var headG := Prefixes(xs[i..], n);
      var headW := seq(n, l requires 0 <= l < n => (i, l + 1));
      PrefixesAtWindows(xs, i, n);
      SlicesAtConcat(xs, headG, headW, Everygrams(xs[i + 1..], maxLen), Windows(|xs|, maxLen, i + 1));
    } else {
      assert xs[i..] == [];
    }
  }

  /** The whole of `everygrams(xs)` is the slices of `xs` at the windows starting at 0. */
  lemma EverygramsSlices<T>(xs: seq<T>, maxLen: nat)
    ensures SlicesAt(xs, Everygrams(xs, maxLen), Windows(|xs|, maxLen, 0))
  {
    assert xs[0..] == xs;
    EverygramsAtWindows(xs, maxLen, 0);
  }

  /**
   * The positions of `everygrams(xs, max_len=maxLen)` correspond one to one,
   * in order, to the windows `(start, length)` with `1 <= length <= maxLen`
   * and `start + length <= |xs|`; each gram is the slice at its window.
   */
  lemma EverygramsExact<T>(xs: seq<T>, maxLen: nat)
    ensures |Everygrams(xs, maxLen)| == |Windows(|xs|, maxLen, 0)|
    ensures forall j :: 0 <= j < |Windows(|xs|, maxLen, 0)| ==>
      var w := Windows(|xs|, maxLen, 0)[j];
      Everygrams(xs, maxLen)[j] == xs[w.0..w.0 + w.1]
    ensures forall p :: p in Windows(|xs|, maxLen, 0) <==> IsWindow(p, |xs|, maxLen)
    ensures forall a, b :: 0 <= a < b < |Windows(|xs|, maxLen, 0)| ==>
      WindowBefore(Windows(|xs|, maxLen, 0)[a], Windows(|xs|, maxLen, 0)[b])
  {
    EverygramsSlices(xs, maxLen);
    assert forall p :: IsWindow(p, |xs|, maxLen) ==> p in Windows(|xs|, maxLen, 0) by {
      forall p | IsWindow(p, |xs|, maxLen)
        ensures p in Windows(|xs|, maxLen, 0)
      {
        WindowsComplete(|xs|, maxLen, 0, p);
      }
    }
    WindowsSorted(|xs|, maxLen, 0);
  }

  function Max0(x: int): nat {
    if x < 0 then 0 else x
  }

  /** Over `k` items, `max_len=3` yields k unigrams, k-1 bigrams and k-2 trigrams (none below zero). */
  lemma {:induction false} EverygramsCount<T>(xs: seq<T>)
    ensures |Everygrams(xs, 3)| == |xs| + Max0(|xs| - 1) + Max0(|xs| - 2)
  {
    if |xs| > 0 {
      EverygramsCount(xs[1..]);
    }
  }
}
