/** Bookkeeping while the frame sequence preloads: the percentage shown on the
    loading overlay and the slot array that decoded images are stored into as
    their loads complete, in whatever order that is. */
module LoadProgress {
  import opened Wrappers
  import opened FrameAssets

  /** `Math.floor((loadedCount / TOTAL_FRAMES) * 100)`, computed over the reals; it is
      the integer quotient of `count * 100` by the frame count. */
  function LoadPercent(count: nat): (percent: int)
    ensures percent == count * 100 / TotalFrames
  {
    var x := (count as real / TotalFrames as real) * 100.0;
    var q, r := count * 100 / TotalFrames, count * 100 % TotalFrames;
    assert count * 100 == TotalFrames * q + r;
    assert x == q as real + r as real / TotalFrames as real;
    assert q as real <= x < q as real + 1.0;
    x.Floor
  }

  /** While at most every frame has loaded, the percentage lies in 0..100. */
  lemma LoadPercentBounds(count: nat)
    requires count <= TotalFrames
    ensures 0 <= LoadPercent(count) <= 100
  {
  }

  /** The percentage never decreases as more frames load. */
  lemma LoadPercentMonotone(a: nat, b: nat)
    requires a <= b
    ensures LoadPercent(a) <= LoadPercent(b)
  {
    assert a * 100 <= b * 100;
  }

  /** The overlay shows 100% exactly when the last frame has loaded. */
  lemma LoadPercentFull(count: nat)
    requires count <= TotalFrames
    ensures LoadPercent(count) == 100 <==> count == TotalFrames
  {
  }

  /** `loadedImages`: one slot per frame position, empty until that frame has loaded. */
  type Slots = seq<Option<Frame>>

  function EmptySlots(): (s: Slots)
    ensures |s| == TotalFrames && forall k :: 0 <= k < |s| ==> s[k] == None
  {
    seq(TotalFrames, _ => None)
  }

  /** Every filled slot holds the image fetched from that slot's own frame URL. */
  ghost predicate Placed(s: Slots) {
    forall k :: 0 <= k < |s| && s[k].Some? ==> s[k].value.src == FramePath(k)
  }

  /** Every filled slot holds an image with a positive decoded size. */
  predicate Sized(s: Slots) {
    forall k :: 0 <= k < |s| && s[k].Some? ==> s[k].value.width > 0 && s[k].value.height > 0
  }

  predicate AllFilled(s: Slots) {
    forall k :: 0 <= k < |s| ==> s[k].Some?
  }

  /** The number of filled slots. */
  function Filled(s: Slots): (n: nat)
    ensures n <= |s|
    ensures n == |s| <==> AllFilled(s)
    ensures n == 0 <==> forall k :: 0 <= k < |s| ==> s[k].None?
  {
    if s == [] then 0
    else
      assert forall k :: 1 <= k < |s| ==> s[k] == s[1..][k - 1];
      (if s[0].Some? then 1 else 0) + Filled(s[1..])
  }

  /** `loadedImages[i] = img` for the image decoded from frame position `i`. */
  function Store(s: Slots, i: nat, width: nat, height: nat): (r: Slots)
    requires i < |s|
    ensures |r| == |s| && r[i] == Some(Frame(FramePath(i), width, height))
    ensures forall k :: 0 <= k < |s| && k != i ==> r[k] == s[k]
  {
    s[i := Some(Frame(FramePath(i), width, height))]
  }

  /** Filling an empty slot fills exactly one more slot. */
  lemma {:induction false} FillOne(s: Slots, i: nat, f: Frame)
    requires i < |s| && s[i].None?
    ensures Filled(s[i := Some(f)]) == Filled(s) + 1
  {
    var t := s[i := Some(f)];
    if i == 0 {
      assert t[1..] == s[1..];
    } else {
      assert t[1..] == s[1..][i - 1 := Some(f)];
      FillOne(s[1..], i - 1, f);
    }
  }

  /** Storing into an empty slot fills exactly one more slot. */
  lemma StoreFillsOne(s: Slots, i: nat, width: nat, height: nat)
    requires i < |s| && s[i].None?
    ensures Filled(Store(s, i, width, height)) == Filled(s) + 1
  {
    FillOne(s, i, Frame(FramePath(i), width, height));
  }

  /** Storing keeps every image in its own frame's slot. */
  lemma StoreKeepsPlaced(s: Slots, i: nat, width: nat, height: nat)
    requires i < |s| && Placed(s)
    ensures Placed(Store(s, i, width, height))
  {
  }

  /** Storing an image of positive size keeps every filled slot's size positive. */
  lemma StoreKeepsSized(s: Slots, i: nat, width: nat, height: nat)
    requires i < |s| && Sized(s) && width > 0 && height > 0
    ensures Sized(Store(s, i, width, height))
  {
  }

  /** One completed load: the frame position and the decoded size. */
  datatype Load = Load(index: nat, width: nat, height: nat)

  predicate InRange(s: Slots, loads: seq<Load>) {
    forall j :: 0 <= j < |loads| ==> loads[j].index < |s|
  }

  /** Each frame position completes at most once. */
  predicate DistinctIndices(loads: seq<Load>) {
    forall a, b :: 0 <= a < b < |loads| ==> loads[a].index != loads[b].index
  }

  /** Some completed load addresses frame position `k`. */
  predicate Covers(loads: seq<Load>, k: nat) {
    exists j :: 0 <= j < |loads| && loads[j].index == k
  }

  /** The slots after the `onload` callbacks of `loads` have run in that order. */
  function Replay(s: Slots, loads: seq<Load>): (r: Slots)
    requires InRange(s, loads)
    ensures |r| == |s|
    ensures forall k :: 0 <= k < |s| && s[k].Some? ==> r[k].Some?
    decreases |loads|
  {
    if loads == [] then s
    else Replay(Store(s, loads[0].index, loads[0].width, loads[0].height), loads[1..])
  }

  /** A slot that no completed load addresses keeps its old content. */
  lemma {:induction false} ReplayMiss(s: Slots, loads: seq<Load>, k: nat)
    requires InRange(s, loads) && k < |s|
    requires forall j :: 0 <= j < |loads| ==> loads[j].index != k
    ensures Replay(s, loads)[k] == s[k]
    decreases |loads|
  {
    if loads != [] {
      ReplayMiss(Store(s, loads[0].index, loads[0].width, loads[0].height), loads[1..], k);
    }
  }

  /** The slot a completed load addresses holds that load's image, whatever came before or
      after it, as long as no other load addresses the same slot. */
  lemma {:induction false} ReplayHit(s: Slots, loads: seq<Load>, j: nat)
    requires InRange(s, loads) && j < |loads|
    requires forall a :: 0 <= a < |loads| && a != j ==> loads[a].index != loads[j].index
    ensures Replay(s, loads)[loads[j].index]
            == Some(Frame(FramePath(loads[j].index), loads[j].width, loads[j].height))
    decreases |loads|
  {
    var t := Store(s, loads[0].index, loads[0].width, loads[0].height);
    var rest := loads[1..];
    forall a | 0 <= a < |rest|
      ensures rest[a] == loads[a + 1]
    {
    }
    if j == 0 {
      ReplayMiss(t, rest, loads[0].index);
    } else {
      ReplayHit(t, rest, j - 1);
    }
  }

  /** The slot layout after a set of loads does not depend on the order they complete in. */
  lemma ReplayOrderIndependent(s: Slots, loads1: seq<Load>, loads2: seq<Load>)
    requires InRange(s, loads1) && InRange(s, loads2)
    requires DistinctIndices(loads1) && DistinctIndices(loads2)
    requires multiset(loads1) == multiset(loads2)
    ensures Replay(s, loads1) == Replay(s, loads2)
  {
    var r1, r2 := Replay(s, loads1), Replay(s, loads2);
    forall k | 0 <= k < |s|
      ensures r1[k] == r2[k]
    {
      if j1 :| 0 <= j1 < |loads1| && loads1[j1].index == k {
        assert loads1[j1] in multiset(loads2);
        var j2 :| 0 <= j2 < |loads2| && loads2[j2] == loads1[j1];
        ReplayHit(s, loads1, j1);
        ReplayHit(s, loads2, j2);
      } else {
        forall j2 | 0 <= j2 < |loads2|
          ensures loads2[j2].index != k
        {
          assert loads2[j2] in multiset(loads1);
        }
        ReplayMiss(s, loads1, k);
        ReplayMiss(s, loads2, k);
      }
    }
  }

  /** Once every frame has loaded exactly once, in any order, every slot is filled and
      slot `k` holds the image of frame `k + 1`. */
  lemma ReplayAllPlaced(loads: seq<Load>)
    requires InRange(EmptySlots(), loads) && DistinctIndices(loads)
    requires forall k :: 0 <= k < TotalFrames ==> Covers(loads, k)
    ensures AllFilled(Replay(EmptySlots(), loads))
    ensures forall k :: 0 <= k < TotalFrames ==> Replay(EmptySlots(), loads)[k].value.src == FramePath(k)
  {
    var r := Replay(EmptySlots(), loads);
    forall k | 0 <= k < TotalFrames
      ensures r[k].Some? && r[k].value.src == FramePath(k)
    {
      assert Covers(loads, k);
      var j :| 0 <= j < |loads| && loads[j].index == k;
      ReplayHit(EmptySlots(), loads, j);
    }
  }

  /** The images of a completely filled slot array, in slot order (`setImages(loadedImages)`). */
  function Values(s: Slots): (r: seq<Frame>)
    requires AllFilled(s)
    ensures |r| == |s| && forall k :: 0 <= k < |s| ==> r[k] == s[k].value
  {
    if s == [] then [] else [s[0].value] + Values(s[1..])
  }
}
