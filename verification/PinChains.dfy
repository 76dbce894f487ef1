/**
 Chains of candidate pins: what the pin backbone is defined by, independent of how it is computed.
 A chain is an increasing choice of pin indexes whose current lines increase strictly as well.
 */
module PinChains {
  datatype WeightedPin = WeightedPin(prevLine: int, currLine: int, displacement: int)

  /** Indexes into a pin list, in ascending order. */
  type Chain = seq<nat>

  /** Pin j may directly or indirectly precede pin i in a chain. */
  predicate Before(pins: seq<WeightedPin>, j: nat, i: nat) {
    j < i < |pins| && pins[j].currLine < pins[i].currLine
  }

  ghost predicate IsChain(pins: seq<WeightedPin>, s: Chain) {
    && (forall k | 0 <= k < |s| :: s[k] < |pins|)
    && (forall k, l | 0 <= k < l < |s| :: Before(pins, s[k], s[l]))
  }

  /** Total displacement of a chain. */
  ghost function Weight(pins: seq<WeightedPin>, s: Chain): int
    requires forall k | 0 <= k < |s| :: s[k] < |pins|
  {
    if s == [] then 0 else Weight(pins, s[..|s| - 1]) + pins[s[|s| - 1]].displacement
  }

  /** No chain is longer, and no chain of that length is lighter. */
  ghost predicate IsOptimalChain(pins: seq<WeightedPin>, s: Chain) {
    && IsChain(pins, s)
    && (forall t | IsChain(pins, t) :: |t| <= |s|)
    && (forall t | IsChain(pins, t) && |t| == |s| :: Weight(pins, s) <= Weight(pins, t))
  }

  /** Pin i lies on every optimal chain. */
  ghost predicate OnEveryOptimalChain(pins: seq<WeightedPin>, i: nat) {
    forall s | IsOptimalChain(pins, s) :: i in s
  }

  // ---- chains that end at a pin ----

  ghost predicate EndsAt(pins: seq<WeightedPin>, s: Chain, i: nat) {
    IsChain(pins, s) && s != [] && s[|s| - 1] == i
  }

  /** What the forward pass promises: the longest chain ending at each pin, and the lightest of those. */
  ghost predicate ForwardExact(pins: seq<WeightedPin>, lengths: seq<int>, totals: seq<int>) {
    && |lengths| == |totals| == |pins|
    && (forall s: Chain, i: nat | EndsAt(pins, s, i) :: |s| <= lengths[i])
    && (forall s: Chain, i: nat | EndsAt(pins, s, i) && |s| == lengths[i] :: totals[i] <= Weight(pins, s))
    && (forall i: nat | i < |pins| :: Attainable(pins, lengths, totals, i))
  }

  ghost predicate Attainable(pins: seq<WeightedPin>, lengths: seq<int>, totals: seq<int>, i: nat) {
    exists s :: Attains(pins, lengths, totals, s, i)
  }

  ghost predicate Attains(pins: seq<WeightedPin>, lengths: seq<int>, totals: seq<int>, s: Chain, i: nat) {
    i < |lengths| == |totals| && EndsAt(pins, s, i) && |s| == lengths[i] && Weight(pins, s) == totals[i]
  }

  /** Pin j is a possible predecessor of pin i on a longest chain. */
  predicate Predecessor(pins: seq<WeightedPin>, lengths: seq<int>, j: nat, i: nat) {
    i < |lengths| && j < |lengths| && Before(pins, j, i) && lengths[j] == lengths[i] - 1
  }

  /** The local condition that makes a length column exact, on the pins it covers so far. */
  ghost predicate LengthsLocal(pins: seq<WeightedPin>, lengths: seq<int>) {
    && |lengths| <= |pins|
    && (forall i: nat | i < |lengths| :: lengths[i] >= 1)
    && (forall j: nat, i: nat | i < |lengths| && Before(pins, j, i) :: lengths[j] < lengths[i])
    && (forall i: nat | i < |lengths| && lengths[i] > 1 :: HasPredecessor(pins, lengths, i))
  }

  ghost predicate HasPredecessor(pins: seq<WeightedPin>, lengths: seq<int>, i: nat) {
    exists j: nat :: Predecessor(pins, lengths, j, i)
  }

  /** The local condition that makes a total column exact, on the pins it covers so far. */
  ghost predicate TotalsLocal(pins: seq<WeightedPin>, lengths: seq<int>, totals: seq<int>) {
    && |totals| <= |lengths| == |pins|
    && forall i: nat | i < |totals| :: TotalLocal(pins, lengths, totals, i, totals[i])
  }

  /** `total` is pin i's own displacement plus the least total of its predecessors, if it has any. */
  ghost predicate TotalLocal(pins: seq<WeightedPin>, lengths: seq<int>, totals: seq<int>, i: nat, total: int)
    requires |totals| <= |lengths| == |pins| && i <= |totals| && i < |pins|
  {
    && (lengths[i] == 1 ==> total == pins[i].displacement)
    && (forall j: nat | Predecessor(pins, lengths, j, i) :: total <= pins[i].displacement + totals[j])
    && (lengths[i] > 1 ==>
          exists j: nat :: Predecessor(pins, lengths, j, i) && total == pins[i].displacement + totals[j])
  }

  lemma {:induction false} Butlast(pins: seq<WeightedPin>, s: Chain)
    requires IsChain(pins, s) && |s| > 1
    ensures EndsAt(pins, s[..|s| - 1], s[|s| - 2]) && Before(pins, s[|s| - 2], s[|s| - 1])
  {
  }

  lemma {:induction false} LengthBound(pins: seq<WeightedPin>, lengths: seq<int>, s: Chain, i: nat)
    requires LengthsLocal(pins, lengths) && |lengths| == |pins| && EndsAt(pins, s, i)
    ensures |s| <= lengths[i]
    decreases |s|
  {
    if |s| > 1 {
      Butlast(pins, s);
      LengthBound(pins, lengths, s[..|s| - 1], s[|s| - 2]);
    }
  }

  lemma {:induction false} WeightBound(pins: seq<WeightedPin>, lengths: seq<int>, totals: seq<int>, s: Chain, i: nat)
    requires LengthsLocal(pins, lengths) && TotalsLocal(pins, lengths, totals) && |totals| == |pins|
    requires EndsAt(pins, s, i) && |s| == lengths[i]
    ensures totals[i] <= Weight(pins, s)
    decreases |s|
  {
    if |s| > 1 {
      var j := s[|s| - 2];
      Butlast(pins, s);
      LengthBound(pins, lengths, s[..|s| - 1], j);
      assert Predecessor(pins, lengths, j, i);
      WeightBound(pins, lengths, totals, s[..|s| - 1], j);
    } else {
      assert Weight(pins, s[..0]) == 0;
    }
  }

  lemma {:induction false} AddLast(pins: seq<WeightedPin>, s: Chain, j: nat, i: nat)
    requires EndsAt(pins, s, j) && Before(pins, j, i)
    ensures EndsAt(pins, s + [i], i)
    ensures Weight(pins, s + [i]) == Weight(pins, s) + pins[i].displacement
  {
    var t := s + [i];
    forall k | 0 <= k < |s| ensures Before(pins, t[k], i) {
      assert t[k] == s[k];
      if k < |s| - 1 {
        assert Before(pins, s[k], s[|s| - 1]);
      }
    }
    assert t[..|t| - 1] == s;
  }

  lemma {:induction false} Attained(pins: seq<WeightedPin>, lengths: seq<int>, totals: seq<int>, i: nat)
    returns (s: Chain)
    requires LengthsLocal(pins, lengths) && TotalsLocal(pins, lengths, totals) && |totals| == |pins| && i < |pins|
    ensures Attains(pins, lengths, totals, s, i)
    decreases i
  {
    if lengths[i] == 1 {
      s := [i];
      assert Weight(pins, s[..0]) == 0;
    } else {
      var j: nat :| Predecessor(pins, lengths, j, i) && totals[i] == pins[i].displacement + totals[j];
      var t := Attained(pins, lengths, totals, j);
      AddLast(pins, t, j, i);
      s := t + [i];
    }
  }

  lemma {:induction false} LocalIsExact(pins: seq<WeightedPin>, lengths: seq<int>, totals: seq<int>)
    requires LengthsLocal(pins, lengths) && TotalsLocal(pins, lengths, totals) && |totals| == |pins|
    ensures ForwardExact(pins, lengths, totals)
  {
    forall s: Chain, i: nat | EndsAt(pins, s, i) ensures |s| <= lengths[i] {
      LengthBound(pins, lengths, s, i);
    }
    forall s: Chain, i: nat | EndsAt(pins, s, i) && |s| == lengths[i] ensures totals[i] <= Weight(pins, s) {
      WeightBound(pins, lengths, totals, s, i);
    }
    forall i: nat | i < |pins| ensures Attainable(pins, lengths, totals, i) {
      var s := Attained(pins, lengths, totals, i);
    }
  }

  // ---- the mirror image: chains that start at a pin ----

  ghost predicate StartsAt(pins: seq<WeightedPin>, s: Chain, i: nat) {
    IsChain(pins, s) && s != [] && s[0] == i
  }

  /** The pins back to front with their current lines negated. */
  function Mirror(pins: seq<WeightedPin>): (r: seq<WeightedPin>)
    ensures |r| == |pins|
    ensures forall i | 0 <= i < |pins| :: MirroredPin(pins[i], r[|pins| - 1 - i])
  {
    seq(|pins|, i requires 0 <= i < |pins| =>
      var pin := pins[|pins| - 1 - i]; WeightedPin(pin.prevLine, -pin.currLine, pin.displacement))
  }

  predicate MirroredPin(pin: WeightedPin, image: WeightedPin) {
    image.currLine == -pin.currLine && image.displacement == pin.displacement
  }

  /** A chain of the one list read as a chain of the other. */
  ghost function MirrorChain(count: nat, s: Chain): (r: Chain)
    requires forall k | 0 <= k < |s| :: s[k] < count
    ensures |r| == |s|
    ensures forall k | 0 <= k < |s| :: r[k] < count && r[k] == count - 1 - s[|s| - 1 - k]
  {
    seq(|s|, k requires 0 <= k < |s| => count - 1 - s[|s| - 1 - k])
  }

  ghost predicate Mirrored(a: seq<WeightedPin>, b: seq<WeightedPin>) {
    |a| == |b| && forall i | 0 <= i < |a| :: MirroredPin(a[i], b[|a| - 1 - i])
  }

  lemma {:induction false} MirrorIsChain(a: seq<WeightedPin>, b: seq<WeightedPin>, s: Chain)
    requires Mirrored(a, b) && IsChain(a, s)
    ensures IsChain(b, MirrorChain(|a|, s))
  {
    var t := MirrorChain(|a|, s);
    forall k, l | 0 <= k < l < |t| ensures Before(b, t[k], t[l]) {
      var x, y := s[|s| - 1 - l], s[|s| - 1 - k];
      assert Before(a, x, y);
      assert MirroredPin(a[x], b[|a| - 1 - x]) && MirroredPin(a[y], b[|a| - 1 - y]);
    }
  }

  lemma {:induction false} WeightOfFirst(pins: seq<WeightedPin>, s: Chain)
    requires forall k | 0 <= k < |s| :: s[k] < |pins|
    requires s != []
    ensures Weight(pins, s) == pins[s[0]].displacement + Weight(pins, s[1..])
    decreases |s|
  {
    if |s| > 1 {
      WeightOfFirst(pins, s[..|s| - 1]);
      assert s[..|s| - 1][1..] == s[1..][..|s| - 2];
    } else {
      assert Weight(pins, s[..0]) == 0;
    }
  }

  lemma {:induction false} MirrorWeight(a: seq<WeightedPin>, b: seq<WeightedPin>, s: Chain)
    requires Mirrored(a, b) && forall k | 0 <= k < |s| :: s[k] < |a|
    ensures Weight(b, MirrorChain(|a|, s)) == Weight(a, s)
    decreases |s|
  {
    var t := MirrorChain(|a|, s);
    if s != [] {
      MirrorWeight(a, b, s[..|s| - 1]);
      WeightOfFirst(b, t);
      assert t[1..] == MirrorChain(|a|, s[..|s| - 1]);
      assert MirroredPin(a[s[|s| - 1]], b[t[0]]);
    }
  }

  /** What the mirrored forward pass promises about the pins themselves. */
  ghost predicate BackwardExact(pins: seq<WeightedPin>, lengths: seq<int>, totals: seq<int>) {
    && |lengths| == |totals| == |pins|
    && (forall s: Chain, i: nat | StartsAt(pins, s, i) :: |s| <= lengths[i])
    && (forall s: Chain, i: nat | StartsAt(pins, s, i) && |s| == lengths[i] :: totals[i] <= Weight(pins, s))
    && (forall i: nat | i < |pins| :: AttainableFrom(pins, lengths, totals, i))
  }

  ghost predicate AttainableFrom(pins: seq<WeightedPin>, lengths: seq<int>, totals: seq<int>, i: nat) {
    exists s :: AttainsFrom(pins, lengths, totals, s, i)
  }

  ghost predicate AttainsFrom(pins: seq<WeightedPin>, lengths: seq<int>, totals: seq<int>, s: Chain, i: nat) {
    i < |lengths| == |totals| && StartsAt(pins, s, i) && |s| == lengths[i] && Weight(pins, s) == totals[i]
  }

  function Reversed(s: seq<int>): (r: seq<int>)
    ensures |r| == |s|
    ensures forall k | 0 <= k < |s| :: r[k] == s[|s| - 1 - k]
  {
    seq(|s|, k requires 0 <= k < |s| => s[|s| - 1 - k])
  }

  lemma {:induction false} MirroredBack(a: seq<WeightedPin>, b: seq<WeightedPin>)
    requires Mirrored(a, b)
    ensures Mirrored(b, a)
  {
    forall i | 0 <= i < |b| ensures MirroredPin(b[i], a[|b| - 1 - i]) {
      assert MirroredPin(a[|a| - 1 - i], b[|a| - 1 - (|a| - 1 - i)]);
    }
  }

  lemma {:induction false} MirrorStart(a: seq<WeightedPin>, b: seq<WeightedPin>, s: Chain, i: nat)
    requires Mirrored(a, b) && StartsAt(a, s, i)
    ensures EndsAt(b, MirrorChain(|a|, s), |a| - 1 - i)
    ensures Weight(b, MirrorChain(|a|, s)) == Weight(a, s)
  {
    MirrorIsChain(a, b, s);
    MirrorWeight(a, b, s);
  }

  lemma {:induction false} MirrorEnd(a: seq<WeightedPin>, b: seq<WeightedPin>, s: Chain, i: nat)
    requires Mirrored(a, b) && EndsAt(b, s, i)
    ensures StartsAt(a, MirrorChain(|a|, s), |a| - 1 - i)
    ensures Weight(a, MirrorChain(|a|, s)) == Weight(b, s)
  {
    MirroredBack(a, b);
    MirrorIsChain(b, a, s);
    MirrorWeight(b, a, s);
  }

  /** The forward pass over the mirror image is the backward pass over the pins. */
  lemma {:induction false} MirrorIsExact(pins: seq<WeightedPin>, lengths: seq<int>, totals: seq<int>)
    requires ForwardExact(Mirror(pins), lengths, totals)
    ensures BackwardExact(pins, Reversed(lengths), Reversed(totals))
  {
    var image := Mirror(pins);
    var suffixLengths, suffixTotals := Reversed(lengths), Reversed(totals);
    forall s: Chain, i: nat | StartsAt(pins, s, i)
      ensures |s| <= suffixLengths[i]
      ensures |s| == suffixLengths[i] ==> suffixTotals[i] <= Weight(pins, s)
    {
      MirrorStart(pins, image, s, i);
    }
    forall i: nat | i < |pins| ensures AttainableFrom(pins, suffixLengths, suffixTotals, i) {
      var j: nat := |pins| - 1 - i;
      assert Attainable(image, lengths, totals, j);
      var s :| Attains(image, lengths, totals, s, j);
      MirrorEnd(pins, image, s, j);
      assert AttainsFrom(pins, suffixLengths, suffixTotals, MirrorChain(|pins|, s), i);
    }
  }

  // ---- chains through a pin ----

  lemma {:induction false} WeightOfJoin(pins: seq<WeightedPin>, s: Chain, t: Chain)
    requires forall k | 0 <= k < |s| :: s[k] < |pins|
    requires forall k | 0 <= k < |t| :: t[k] < |pins|
    ensures Weight(pins, s + t) == Weight(pins, s) + Weight(pins, t)
    decreases |t|
  {
    if t == [] {
      assert s + t == s;
    } else {
      WeightOfJoin(pins, s, t[..|t| - 1]);
      assert (s + t)[..|s + t| - 1] == s + t[..|t| - 1];
    }
  }

  /** A chain through pin s[k] is a chain ending there joined with a chain starting there. */
  lemma {:induction false} SplitChain(pins: seq<WeightedPin>, s: Chain, k: nat)
    requires IsChain(pins, s) && k < |s|
    ensures EndsAt(pins, s[..k + 1], s[k]) && StartsAt(pins, s[k..], s[k])
    ensures Weight(pins, s) == Weight(pins, s[..k + 1]) + Weight(pins, s[k..]) - pins[s[k]].displacement
  {
    assert s == s[..k + 1] + s[k + 1..] && s[k..][1..] == s[k + 1..];
    WeightOfJoin(pins, s[..k + 1], s[k + 1..]);
    WeightOfFirst(pins, s[k..]);
  }

  lemma {:induction false} JoinChains(pins: seq<WeightedPin>, s: Chain, t: Chain, i: nat)
    requires EndsAt(pins, s, i) && StartsAt(pins, t, i)
    ensures IsChain(pins, s + t[1..]) && i in s + t[1..]
    ensures Weight(pins, s + t[1..]) == Weight(pins, s) + Weight(pins, t) - pins[i].displacement
  {
    var u := s + t[1..];
    forall k, l | 0 <= k < l < |u| ensures Before(pins, u[k], u[l]) {
      if l >= |s| {
        var b := l - |s| + 1;
        assert u[l] == t[b] && Before(pins, t[0], t[b]);
        if k < |s| - 1 {
          assert Before(pins, s[k], s[|s| - 1]);
        } else if k >= |s| {
          assert Before(pins, t[k - |s| + 1], t[b]);
        }
      }
    }
    assert u[|s| - 1] == i;
    WeightOfJoin(pins, s, t[1..]);
    WeightOfFirst(pins, t);
  }
}
