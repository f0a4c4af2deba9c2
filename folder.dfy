/**
 * The folder widget (src/components/reactbits/Folder.tsx): a folder that
 * opens and closes on click and, while open, lets one of its papers be
 * pulled out. Its state is two fields, `open` and `activeIdx`
 * (lines 17-18), changed by two click handlers (lines 20-29).
 */
module FolderWidget {
  import opened Optional

  /** The widget's state: whether it is open, and the paper pulled out. */
  datatype FolderState = FolderState(open: bool, activeIdx: Option<nat>)

  /** The state on mount: closed, no paper selected (lines 17-18). */
  const Initial: FolderState := FolderState(false, None)

  /** `handleFolderClick` (lines 20-23): toggle and drop the selection. */
  function FolderClicked(s: FolderState): (t: FolderState)
    ensures t.open != s.open
    ensures t.activeIdx.None?
  {
    FolderState(!s.open, None)
  }

  /**
   * `handlePaperClick` (lines 25-29): a click on a paper of a closed folder
   * opens it; on an open folder it pulls that paper out, or puts it back if
   * it was the one already out.
   */
  function PaperClicked(s: FolderState, index: nat): (t: FolderState)
    ensures t.open
    ensures !s.open ==> t.activeIdx == s.activeIdx
    ensures s.open && s.activeIdx != Some(index) ==> t.activeIdx == Some(index)
    ensures s.open && s.activeIdx == Some(index) ==> t.activeIdx.None?
  {
    if !s.open then FolderState(true, s.activeIdx)
    else FolderState(s.open, if s.activeIdx == Some(index) then None else Some(index))
  }

  /** A click on the folder itself or on the paper at a rendered index. */
  datatype Click = OnFolder | OnPaper(index: nat)

  function Step(s: FolderState, c: Click): (t: FolderState)
  {
    match c
    case OnFolder => FolderClicked(s)
    case OnPaper(i) => PaperClicked(s, i)
  }

  /** The state after a run of clicks. */
  function Run(s: FolderState, clicks: seq<Click>): (t: FolderState)
    decreases |clicks|
  {
    if clicks == [] then s else Run(Step(s, clicks[0]), clicks[1..])
  }

  /** Papers are rendered only for indices of `items` (lines 60-65). */
  predicate RenderedClicks(clicks: seq<Click>, itemCount: nat)
  {
    forall k :: 0 <= k < |clicks| && clicks[k].OnPaper? ==> clicks[k].index < itemCount
  }

  /** A paper is out only while the folder is open, and it is one of the items. */
  predicate Consistent(s: FolderState, itemCount: nat)
  {
    s.activeIdx.Some? ==> s.open && s.activeIdx.value < itemCount
  }

  lemma StepConsistent(s: FolderState, c: Click, itemCount: nat)
    requires Consistent(s, itemCount)
    requires c.OnPaper? ==> c.index < itemCount
    ensures Consistent(Step(s, c), itemCount)
  {}

  /** Every state reachable from the initial one by rendered clicks is consistent. */
  lemma {:induction false} RunConsistent(s: FolderState, clicks: seq<Click>, itemCount: nat)
    requires Consistent(s, itemCount)
    requires RenderedClicks(clicks, itemCount)
    ensures Consistent(Run(s, clicks), itemCount)
    decreases |clicks|
  {
    if clicks != [] {
      StepConsistent(s, clicks[0], itemCount);
      assert RenderedClicks(clicks[1..], itemCount) by {
        forall k | 0 <= k < |clicks[1..]| && clicks[1..][k].OnPaper?
          ensures clicks[1..][k].index < itemCount
        {
          assert clicks[1..][k] == clicks[k + 1];
        }
      }
      RunConsistent(Step(s, clicks[0]), clicks[1..], itemCount);
    }
  }

  lemma ReachableConsistent(clicks: seq<Click>, itemCount: nat)
    requires RenderedClicks(clicks, itemCount)
    ensures Consistent(Run(Initial, clicks), itemCount)
  {
    RunConsistent(Initial, clicks, itemCount);
  }

  /**
   * On an open folder, two clicks on the same paper leave that paper out if
   * it was out before, and no paper out otherwise.
   */
  lemma PaperClickTwice(s: FolderState, index: nat)
    requires s.open
    ensures PaperClicked(PaperClicked(s, index), index)
         == FolderState(true, if s.activeIdx == Some(index) then Some(index) else None)
  {}

  /**
   * So the double click restores the state exactly when no paper, or that
   * very paper, was out; from another paper's selection it clears it.
   */
  lemma PaperClickInvolution(s: FolderState, index: nat)
    requires s.open
    ensures PaperClicked(PaperClicked(s, index), index) == s
        <==> s.activeIdx.None? || s.activeIdx == Some(index)
  {
    PaperClickTwice(s, index);
  }

  /** Clicking the folder twice reopens (or recloses) it with nothing selected. */
  lemma FolderClickTwice(s: FolderState)
    ensures FolderClicked(FolderClicked(s)) == FolderState(s.open, None)
  {}

  /** The widget as a component instance: its two state fields and handlers. */
  class Folder {
    /** The number of papers, `items.length`. */
    const itemCount: nat
    var open: bool
    var activeIdx: Option<nat>

    function State(): (st: FolderState)
      reads this
    {
      FolderState(open, activeIdx)
    }

    ghost predicate Valid()
      reads this
    {
      Consistent(State(), itemCount)
    }

    constructor (itemCount: nat)
      ensures this.itemCount == itemCount
      ensures State() == Initial && Valid()
    {
      this.itemCount := itemCount;
      open := false;
      activeIdx := None;
    }

    method HandleFolderClick()
      requires Valid()
      modifies this
      ensures Valid()
      ensures State() == FolderClicked(old(State()))
    {
      open := !open;
      activeIdx := None;
    }

    /** `index` is the index of a rendered paper. */
    method HandlePaperClick(index: nat)
      requires Valid() && index < itemCount
      modifies this
      ensures Valid()
      ensures State() == PaperClicked(old(State()), index)
    {
      if !open {
        open := true;
      } else {
        activeIdx := if activeIdx == Some(index) then None else Some(index);
      }
    }
  }
}
