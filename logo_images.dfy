/**
 * `useImageLoader` (src/components/ui/LogoLoop.tsx, lines 88-126): once
 * every logo image of the first sequence has settled (loaded or failed),
 * the carousel re-measures itself by calling `onLoad`.
 */
module LogoLoopImages {

  /** The two events an image can settle with. */
  datatype ImageEvent = Load | Error

  /** The images 0 .. n-1 all occur in s. */
  ghost predicate CoversAll(s: seq<nat>, n: nat)
  {
    forall k :: 0 <= k < n ==> k in s
  }

  predicate NoRepeats(s: seq<nat>)
  {
    forall i, j :: 0 <= i < j < |s| ==> s[i] != s[j]
  }

  /** The images 0 .. n-1. */
  function Range(n: nat): (r: set<nat>)
    ensures |r| == n
    ensures forall k: nat :: k in r <==> k < n
  {
    if n == 0 then {} else
      var r := Range(n - 1);
      assert n - 1 !in r;
      r + {n - 1}
  }

  /** The images that occur in s. */
  function Elements(s: seq<nat>): (e: set<nat>)
    ensures forall k :: k in e <==> k in s
  {
    set k | k in s
  }

  lemma {:induction false} DistinctCardinality(s: seq<nat>)
    requires NoRepeats(s)
    ensures |Elements(s)| == |s|
  {
    if s != [] {
      var t, last := s[..|s| - 1], s[|s| - 1];
      assert NoRepeats(t);
      DistinctCardinality(t);
      assert forall x :: x in s <==> x in t || x == last by {
        assert s == t + [last];
      }
      assert Elements(s) == Elements(t) + {last};
      assert last !in t;
    }
  }

  lemma {:induction false} SubsetSmaller(a: set<nat>, b: set<nat>)
    requires a <= b
    ensures |a| <= |b|
    decreases |b|
  {
    if a != {} {
      var x :| x in a;
      SubsetSmaller(a - {x}, b - {x});
    }
  }

  lemma {:induction false} SubsetSameSize(a: set<nat>, b: set<nat>)
    requires a <= b && |a| == |b|
    ensures a == b
    decreases |b|
  {
    if b != {} {
      var x :| x in b;
      if x in a {
        SubsetSameSize(a - {x}, b - {x});
        assert a == (a - {x}) + {x};
        assert b == (b - {x}) + {x};
      } else {
        SubsetSmaller(a, b - {x});
      }
    }
  }

  /** n settlements of images below n, no image twice, are all n images. */
  lemma DistinctSettlementsCoverAll(s: seq<nat>, n: nat)
    requires |s| == n && NoRepeats(s)
    requires forall i :: 0 <= i < |s| ==> s[i] < n
    ensures CoversAll(s, n)
  {
    DistinctCardinality(s);
    assert Elements(s) <= Range(n);
    SubsetSameSize(Elements(s), Range(n));
    forall k | 0 <= k < n ensures k in s {
      assert k in Range(n);
    }
  }

  /** The state the effect's closure keeps for one set of images. */
  class ImageLoader {
    /** `images.length` */
    const imageCount: nat
    /** `remainingImages` (line 101) */
    var remaining: int
    /** The load and error listeners still attached, by image. */
    var listeners: set<(nat, ImageEvent)>
    /** How many times `onLoad` has been called. */
    var loadCalls: nat
    /** The images whose settlement ran `handleImageLoad`, in order. */
    ghost var settled: seq<nat>

    ghost predicate Valid()
      reads this
    {
      && (imageCount == 0 ==> loadCalls == 1 && listeners == {} && settled == [])
      && (0 < imageCount ==> remaining == imageCount - |settled|)
      && (0 < imageCount ==> loadCalls == if |settled| >= imageCount then 1 else 0)
      && (forall p :: p in listeners ==> p.0 < imageCount)
      && (forall i :: 0 <= i < |settled| ==> settled[i] < imageCount)
    }

    /** The images still to settle, given which were already `complete`. */
    static function Pending(complete: seq<bool>): set<(nat, ImageEvent)>
    {
      set i, e: ImageEvent | 0 <= i < |complete| && !complete[i] :: (i, e)
    }

    /** The indices of the images that were already `complete`, in order. */
    static function CompleteImages(complete: seq<bool>): (r: seq<nat>)
      ensures forall i :: 0 <= i < |r| ==> r[i] < |complete|
    {
      if complete == [] then []
      else
        var front := CompleteImages(complete[..|complete| - 1]);
        if complete[|complete| - 1] then front + [|complete| - 1] else front
    }

    /**
     * The effect body (lines 93-117), given each image's `complete` flag:
     * with no images `onLoad` runs at once; otherwise images already
     * complete settle on the spot and the others get a load and an error
     * listener.
     */
    constructor (complete: seq<bool>)
      ensures Valid()
      ensures imageCount == |complete|
      ensures listeners == Pending(complete)
      ensures settled == CompleteImages(complete)
      ensures loadCalls == (if forall i :: 0 <= i < |complete| ==> complete[i] then 1 else 0)
    {
      imageCount := |complete|;
      remaining := |complete|;
      listeners := {};
      settled := [];
      loadCalls := 0;
      new;
      if |complete| == 0 {
        loadCalls := 1;
        return;
      }
      var i := 0;
      while i < |complete|
        invariant 0 <= i <= |complete|
        invariant Valid()
        invariant listeners == Pending(complete[..i])
        invariant settled == CompleteImages(complete[..i])
      {
        assert complete[..i + 1][..i] == complete[..i];
        PendingStep(complete[..i + 1]);
        if complete[i] {
          HandleImageLoad(i);
        } else {
          listeners := listeners + {(i, Load), (i, Error)};
        }
        i := i + 1;
      }
      assert complete[..i] == complete;
      CompleteCount(complete);
    }

    static lemma PendingStep(complete: seq<bool>)
      requires complete != []
      ensures var n := |complete| - 1;
        Pending(complete) == Pending(complete[..n]) + (if complete[n] then {} else {(n, Load), (n, Error)})
    {
      var n := |complete| - 1;
      var front := complete[..n];
      forall p | p in Pending(complete)
        ensures p in Pending(front) + (if complete[n] then {} else {(n, Load), (n, Error)})
      {
        if p.0 < n {
          assert front[p.0] == complete[p.0];
        } else {
          assert p.1 == Load || p.1 == Error;
        }
      }
      forall p | p in Pending(front) ensures p in Pending(complete) {
        assert front[p.0] == complete[p.0];
      }
    }

    static lemma {:induction false} CompleteCount(complete: seq<bool>)
      ensures |CompleteImages(complete)| <= |complete|
      ensures |CompleteImages(complete)| == |complete| <==> forall i :: 0 <= i < |complete| ==> complete[i]
    {
      if complete != [] {
        var front := complete[..|complete| - 1];
        CompleteCount(front);
        if forall i :: 0 <= i < |complete| ==> complete[i] {
          assert forall i :: 0 <= i < |front| ==> front[i];
        }
      }
    }

    /** `handleImageLoad` (lines 102-107): count down; at zero, call `onLoad`. */
    method HandleImageLoad(image: nat)
      requires Valid() && 0 < imageCount && image < imageCount
      modifies this
      ensures Valid()
      ensures settled == old(settled) + [image]
      ensures remaining == old(remaining) - 1
      ensures loadCalls == old(loadCalls) + (if remaining == 0 then 1 else 0)
      ensures listeners == old(listeners)
    {
      remaining := remaining - 1;
      if remaining == 0 {
        loadCalls := loadCalls + 1;
      }
      settled := settled + [image];
    }

    /**
     * The browser fires `event` at image `image` (lines 114-115): a listener
     * still attached for it runs once and is removed (`once: true`).
     */
    method Fire(image: nat, event: ImageEvent)
      requires Valid()
      modifies this
      ensures Valid()
      ensures listeners == old(listeners) - {(image, event)}
      ensures (image, event) in old(listeners) ==> settled == old(settled) + [image]
      ensures (image, event) !in old(listeners) ==> settled == old(settled) && loadCalls == old(loadCalls)
    {
      if (image, event) in listeners {
        listeners := listeners - {(image, event)};
        HandleImageLoad(image);
      }
    }

    /** The effect's cleanup (lines 119-124): every listener is detached. */
    method Cleanup()
      requires Valid()
      modifies this
      ensures Valid()
      ensures listeners == {}
      ensures settled == old(settled) && loadCalls == old(loadCalls)
    {
      listeners := {};
    }

    /**
     * `onLoad` runs at most once, and it has run exactly when as many
     * images settled as there are; with no image settling twice (a browser
     * fires either load or error at an image), that is when all of them did.
     */
    lemma OnLoadOnce()
      requires Valid()
      ensures loadCalls <= 1
      ensures 0 < imageCount ==> (loadCalls == 1 <==> |settled| >= imageCount)
      ensures NoRepeats(settled) && loadCalls == 1 ==> CoversAll(settled, imageCount)
    {
      if NoRepeats(settled) && loadCalls == 1 && 0 < imageCount {
        assert |settled| <= imageCount by {
          DistinctCardinality(settled);
          assert Elements(settled) <= Range(imageCount);
          SubsetSmaller(Elements(settled), Range(imageCount));
        }
        DistinctSettlementsCoverAll(settled, imageCount);
      }
    }
  }
}
