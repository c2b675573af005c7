/** The audio mixer: a volume-weighted average of 16-bit sources of different lengths. */
module Mixer {
  import opened Permutations
  import opened Products

  type sample = x: int | -0x8000 <= x < 0x8000

  /** A source: its samples and its volume. */
  datatype Pcm = Pcm(samples: seq<sample>, volume: int)

  /** Integer division as the machine does it, toward zero. */
  function TruncDiv(a: int, t: int): int
    requires t > 0
  {
    if a >= 0 then a / t else -(-a / t)
  }

  function At(p: Pcm, i: nat): sample {
    if i < |p.samples| then p.samples[i] else 0
  }

  function TotalVolume(pcms: seq<Pcm>): int {
    if pcms == [] then 0 else pcms[0].volume + TotalVolume(pcms[1..])
  }

  function Weighted(pcms: seq<Pcm>, i: nat): int {
    if pcms == [] then 0 else At(pcms[0], i) * pcms[0].volume + Weighted(pcms[1..], i)
  }

  /** The general rule for one output sample. */
  function Mix(pcms: seq<Pcm>, i: nat): int {
    if TotalVolume(pcms) <= 0 then 0 else TruncDiv(Weighted(pcms, i), TotalVolume(pcms))
  }

  /** A store into a 16-bit sample keeps the low 16 bits. */
  function Narrow(x: int): sample {
    (x + 0x8000) % 0x1_0000 - 0x8000
  }

  /** What mverge_audio puts out: a single source is copied whatever its volume. */
  function Output(pcms: seq<Pcm>, i: nat): sample {
    if |pcms| == 1 then At(pcms[0], i) else Narrow(Mix(pcms, i))
  }

  // ---- The result is a sample

  ghost predicate Between(pcms: seq<Pcm>, i: nat, lo: int, hi: int) {
    lo <= 0 <= hi && forall k :: 0 <= k < |pcms| ==> lo <= At(pcms[k], i) <= hi
  }

  ghost predicate NonNegative(pcms: seq<Pcm>) {
    forall k :: 0 <= k < |pcms| ==> pcms[k].volume >= 0
  }

  lemma {:induction false} WeightedBounds(pcms: seq<Pcm>, i: nat, lo: int, hi: int)
    requires NonNegative(pcms) && Between(pcms, i, lo, hi)
    ensures lo * TotalVolume(pcms) <= Weighted(pcms, i) <= hi * TotalVolume(pcms)
    ensures TotalVolume(pcms) >= 0
    decreases pcms
  {
    if pcms != [] {
      WeightedBounds(pcms[1..], i, lo, hi);
      assert lo <= At(pcms[0], i) <= hi;
      OneMoreSource(lo, hi, At(pcms[0], i), pcms[0].volume, Weighted(pcms[1..], i), TotalVolume(pcms[1..]));
    }
  }

  lemma OneMoreSource(lo: int, hi: int, x: int, v: int, w: int, t: int)
    requires lo <= x <= hi && v >= 0 && lo * t <= w <= hi * t
    ensures lo * (v + t) <= x * v + w <= hi * (v + t)
  {
    Distributes(lo, v, t);
    Distributes(hi, v, t);
    Scale(lo, x, v);
    Scale(x, hi, v);
  }

  lemma Distributes(a: int, v: int, t: int)
    ensures a * (v + t) == a * v + a * t
  {
  }

  /** A quotient above hi, or below lo, would need a dividend beyond hi * t, or lo * t. */
  lemma QuotientAtMost(q: int, r: int, hi: int, t: int)
    requires t > 0 && r >= 0 && q * t + r <= hi * t
    ensures q <= hi
  {
    if q > hi {
      assert (hi + 1) * t == hi * t + t;
      Scale(hi + 1, q, t);
      assert false;
    }
  }

  lemma DivSplit(a: int, t: int)
    requires t > 0
    ensures (a / t) * t + a % t == a && 0 <= a % t < t
  {
  }

  lemma DivBounds(a: int, t: int, lo: int, hi: int)
    requires t > 0 && lo <= 0 <= hi && lo * t <= a <= hi * t
    ensures lo <= TruncDiv(a, t) <= hi
  {
    if a >= 0 {
      DivSplit(a, t);
      var q, r := a / t, a % t;
      QuotientAtMost(q, r, hi, t);
    } else {
      DivSplit(-a, t);
      var q, r := (-a) / t, (-a) % t;
      assert (-lo) * t == -(lo * t);
      QuotientAtMost(q, r, -lo, t);
    }
  }

  /** r is a / t, rounded toward zero. */
  predicate TowardZero(a: int, t: int, r: int) {
    (a >= 0 ==> r >= 0 && 0 <= a - t * r < t) && (a <= 0 ==> r <= 0 && -t < a - t * r <= 0)
  }

  /** The mixed sample is the weighted mean: the sum of the samples times their volumes over the sum
      of the volumes. */
  lemma MixIsMean(pcms: seq<Pcm>, i: nat)
    ensures TotalVolume(pcms) > 0 ==> TowardZero(Weighted(pcms, i), TotalVolume(pcms), Mix(pcms, i))
    ensures TotalVolume(pcms) <= 0 ==> Mix(pcms, i) == 0
  {
    hide TotalVolume, Weighted;
    var t, a := TotalVolume(pcms), Weighted(pcms, i);
    if t > 0 {
      DivIsTowardZero(a, t);
    }
  }

  lemma DivIsTowardZero(a: int, t: int)
    requires t > 0
    ensures TowardZero(a, t, TruncDiv(a, t))
  {
    if a >= 0 {
      DivSplit(a, t);
      QuotientSign(a / t, a % t, t);
    } else {
      DivSplit(-a, t);
      QuotientSign((-a) / t, (-a) % t, t);
      assert t * -((-a) / t) == -(((-a) / t) * t);
    }
  }

  lemma QuotientSign(q: int, r: int, t: int)
    requires t > 0 && 0 <= r < t && q * t + r >= 0
    ensures q >= 0
  {
    if q < 0 {
      Scale(q, -1, t);
      assert false;
    }
  }

  /** The two sums, source by source. */
  lemma OneSourceMore(p: Pcm, pcms: seq<Pcm>, i: nat)
    ensures TotalVolume([p] + pcms) == p.volume + TotalVolume(pcms) && TotalVolume([]) == 0
    ensures Weighted([p] + pcms, i)
            == (if i < |p.samples| then p.samples[i] * p.volume else 0) + Weighted(pcms, i) && Weighted([], i) == 0
  {
    assert ([p] + pcms)[1..] == pcms;
  }

  /** For non-negative volumes every mixed sample lies between the smallest and the largest of
      its sources and silence, so it fits 16 bits. */
  lemma MixIsWithin(pcms: seq<Pcm>, i: nat, lo: int, hi: int)
    requires NonNegative(pcms) && Between(pcms, i, lo, hi)
    ensures lo <= Mix(pcms, i) <= hi
  {
    if TotalVolume(pcms) > 0 {
      WeightedBounds(pcms, i, lo, hi);
      DivBounds(Weighted(pcms, i), TotalVolume(pcms), lo, hi);
    }
  }

  /** So nothing is cut off when it is stored: what is put out is the weighted mean itself. */
  lemma OutputIsTheMean(pcms: seq<Pcm>, i: nat, lo: int, hi: int)
    requires NonNegative(pcms) && Between(pcms, i, lo, hi)
    ensures |pcms| != 1 ==> Output(pcms, i) == Mix(pcms, i)
    ensures lo <= Output(pcms, i) <= hi
  {
    MixIsWithin(pcms, i, -0x8000, 0x7fff);
    MixIsWithin(pcms, i, lo, hi);
  }

  // ---- The order of the sources does not matter

  lemma {:induction false} MoveToFront(pcms: seq<Pcm>, k: nat, i: nat)
    requires k < |pcms|
    ensures var rest := pcms[..k] + pcms[k + 1..];
            && TotalVolume(pcms) == pcms[k].volume + TotalVolume(rest)
            && Weighted(pcms, i) == At(pcms[k], i) * pcms[k].volume + Weighted(rest, i)
    decreases pcms
  {
    var rest := pcms[..k] + pcms[k + 1..];
    if k == 0 {
      assert rest == pcms[1..];
    } else {
      MoveToFront(pcms[1..], k - 1, i);
      assert rest[1..] == pcms[1..][..k - 1] + pcms[1..][k..];
      assert pcms[1..][k - 1] == pcms[k];
    }
  }

  lemma {:induction false} SumsOrderIndependent(a: seq<Pcm>, b: seq<Pcm>, i: nat)
    requires multiset(a) == multiset(b)
    ensures TotalVolume(a) == TotalVolume(b) && Weighted(a, i) == Weighted(b, i)
    decreases a
  {
    assert |a| == |multiset(a)| == |multiset(b)| == |b|;
    if a != [] {
      var k := TakeOut(a, b);
      SumsOrderIndependent(a[1..], b[..k] + b[k + 1..], i);
      MoveToFront(b, k, i);
    }
  }

  lemma OrderIndependent(a: seq<Pcm>, b: seq<Pcm>, i: nat)
    requires multiset(a) == multiset(b)
    ensures Output(a, i) == Output(b, i)
  {
    hide TotalVolume;
    hide Weighted;
    SumsOrderIndependent(a, b, i);
    assert |a| == |multiset(a)| == |multiset(b)| == |b|;
    if |a| == 1 {
      var k := TakeOut(a, b);
      assert k == 0;
    }
  }

  // ---- The one-source shortcut

  lemma TimesThenDiv(x: int, v: int)
    requires v > 0
    ensures TruncDiv(x * v, v) == x
  {
    DivBounds(x * v, v, if x < 0 then x else 0, if x < 0 then 0 else x);
    if x >= 0 {
      assert (x * v) / v == x by { Exact(x, v); }
    } else {
      assert -(x * v) == (-x) * v;
      assert ((-x) * v) / v == -x by { Exact(-x, v); }
    }
  }

  lemma Exact(x: nat, v: int)
    requires v > 0
    ensures (x * v) / v == x
  {
    var q := (x * v) / v;
    assert x * v == q * v + (x * v) % v;
    assert (x - q) * v == (x * v) % v;
    if x > q {
      Scale(1, x - q, v);
    } else if x < q {
      Scale(x - q, -1, v);
    }
  }

  /** Copying a single source is the general rule exactly when its volume is positive or it is
      silent: at volume 0 or below the general rule would silence it. */
  lemma ShortcutIff(p: Pcm)
    ensures (forall i: nat :: Output([p], i) == Mix([p], i))
            <==> p.volume > 0 || forall i :: 0 <= i < |p.samples| ==> p.samples[i] == 0
  {
    assert TotalVolume([p]) == p.volume + TotalVolume([]);
    forall i: nat ensures p.volume > 0 ==> Mix([p], i) == At(p, i) {
      assert Weighted([p], i) == At(p, i) * p.volume + Weighted([], i);
      if p.volume > 0 {
        TimesThenDiv(At(p, i), p.volume);
      }
    }
    if forall i: nat :: Output([p], i) == Mix([p], i) {
      forall i | 0 <= i < |p.samples| && p.volume <= 0 ensures p.samples[i] == 0 {
        assert Output([p], i) == Mix([p], i);
      }
    }
  }

  // ---- The loops

  /** Fills out, one sample after the other, and always to the length asked for. */
  method MixInto(pcms: seq<Pcm>, length: nat) returns (out: array<sample>)
    ensures fresh(out) && out.Length == length
    ensures forall i :: 0 <= i < length ==> out[i] == Output(pcms, i)
  {
    out := new sample[length](_ => 0);
    if |pcms| == 0 {
      return;
    }
    if |pcms| == 1 {
      var len := if length < |pcms[0].samples| then length else |pcms[0].samples|;
      for i := 0 to len
        invariant forall k :: 0 <= k < length ==> out[k] == if k < i then pcms[0].samples[k] else 0
      {
        out[i] := pcms[0].samples[i];
      }
      return;
    }
    var allVolume := 0;
    for k := 0 to |pcms|
      invariant allVolume + TotalVolume(pcms[k..]) == TotalVolume(pcms)
    {
      allVolume := allVolume + pcms[k].volume;
    }
    if allVolume <= 0 {
      return;
    }
    for i := 0 to length
      invariant forall k :: 0 <= k < i ==> out[k] == Output(pcms, k)
    {
      var all := 0;
      for k := 0 to |pcms|
        invariant all + Weighted(pcms[k..], i) == Weighted(pcms, i)
      {
        if i >= |pcms[k].samples| {
          continue;
        }
        all := all + pcms[k].samples[i] * pcms[k].volume;
      }
      out[i] := Narrow(TruncDiv(all, allVolume));
    }
  }

  /** mverge_audio: one source is copied and padded, several are averaged, none or no volume at all is
      silence. */
  method MergeAudio(pcms: seq<Pcm>, length: nat) returns (out: array<sample>)
    ensures fresh(out) && out.Length == length
    ensures forall i :: 0 <= i < length ==> out[i] == Output(pcms, i)
    ensures |pcms| == 1 ==>
              forall i :: 0 <= i < length ==> out[i] == if i < |pcms[0].samples| then pcms[0].samples[i] else 0
    ensures |pcms| > 1 && NonNegative(pcms) && TotalVolume(pcms) > 0 ==>
              forall i :: 0 <= i < length ==> TowardZero(Weighted(pcms, i), TotalVolume(pcms), out[i])
    ensures |pcms| != 1 && TotalVolume(pcms) <= 0 ==> forall i :: 0 <= i < length ==> out[i] == 0
  {
    hide TowardZero, Mix, TotalVolume, Weighted;
    out := MixInto(pcms, length);
    forall i | 0 <= i < length && |pcms| != 1
      ensures NonNegative(pcms) && TotalVolume(pcms) > 0 ==>
                TowardZero(Weighted(pcms, i), TotalVolume(pcms), out[i])
      ensures TotalVolume(pcms) <= 0 ==> out[i] == 0
    {
      MixIsMean(pcms, i);
      if NonNegative(pcms) {
        OutputIsTheMean(pcms, i, -0x8000, 0x7fff);
      }
    }
  }
}
