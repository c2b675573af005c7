/** What a frame shows: the background, drawn once before the first frame from the pictures at the
    front of the list, and over it the rest of the list as it is now. */
module Drawing {
  import opened MaterialList
  import opened Permutations

  predicate IsAudio(m: Material) {
    m.kind == MainAudio || m.kind == Audio
  }

  predicate IsShown(m: Material, productId: int) {
    !(m.productId > 0 && m.productId != productId) && !IsAudio(m)
  }

  function Shown(m: Material, productId: int): seq<Material> {
    if IsShown(m, productId) then [m] else []
  }

  /** The materials that show, in drawing order. */
  function Visible(s: seq<Material>, productId: int): seq<Material> {
    if s == [] then [] else Shown(s[0], productId) + Visible(s[1..], productId)
  }

  lemma {:induction false} VisibleParts(a: seq<Material>, b: seq<Material>, productId: int)
    ensures Visible(a + b, productId) == Visible(a, productId) + Visible(b, productId)
    decreases a
  {
    hide Shown;
    if a == [] {
      assert a + b == b;
    } else {
      VisibleParts(a[1..], b, productId);
      assert (a + b)[1..] == a[1..] + b;
      Associates(Shown(a[0], productId), Visible(a[1..], productId), Visible(b, productId));
    }
  }

  lemma VisibleOne(m: Material, productId: int)
    ensures Visible([m], productId) == Shown(m, productId) && Visible([], productId) == []
  {
    assert [m][1..] == [];
  }

  lemma VisibleLast(s: seq<Material>, k: nat, productId: int)
    requires k < |s|
    ensures Visible(s[..k + 1], productId) == Visible(s[..k], productId) + Shown(s[k], productId)
  {
    hide Visible, Shown;
    assert s[..k + 1] == s[..k] + [s[k]];
    VisibleParts(s[..k], [s[k]], productId);
    VisibleOne(s[k], productId);
  }

  /** A material shows exactly when it is in the list, no audio, and of all products or of the current
      one. */
  lemma {:induction false} VisibleIff(s: seq<Material>, productId: int, m: Material)
    ensures m in Visible(s, productId) <==>
            m in s && m.kind != MainAudio && m.kind != Audio && (m.productId <= 0 || m.productId == productId)
    decreases s
  {
    if s != [] {
      VisibleIff(s[1..], productId, m);
      assert m in s <==> m == s[0] || m in s[1..];
    }
  }

  /** Two materials that show keep their order, each as often as it is listed. */
  lemma VisibleInOrder(s: seq<Material>, t: seq<Material>, productId: int)
    ensures Visible(s + t, productId) == Visible(s, productId) + Visible(t, productId)
    ensures forall m :: Visible([m], productId) == [] || Visible([m], productId) == [m]
  {
    VisibleParts(s, t, productId);
    forall m ensures Visible([m], productId) == [] || Visible([m], productId) == [m] {
      VisibleOne(m, productId);
    }
  }

  /** A material that ends the pictures drawn in advance: of one product only, left to OpenGL, or
      changing by itself. */
  predicate EndsStatic(m: Material, disableOpenGl: bool) {
    m.productId > 0 || (!IsAudio(m) && ((!disableOpenGl && m.tilted) || m.kind != Picture))
  }

  /** Drawn in advance, or passed over, are audio and pictures, of all products; and of the pictures,
      while OpenGL draws, only those that are neither rotated nor translucent. */
  lemma StaticIff(m: Material, disableOpenGl: bool)
    ensures !EndsStatic(m, disableOpenGl) <==>
            && m.productId <= 0
            && (m.kind == MainAudio || m.kind == Audio || (m.kind == Picture && (disableOpenGl || !m.tilted)))
  {
  }

  /** Draws the pictures at the front of the list: they show for every product, and the next
      material is none of them. */
  method DrawStatic(mlist: seq<Material>, outputAlpha: bool, disableOpenGl: bool)
    returns (staticIdx: nat, background: seq<Material>)
    ensures staticIdx <= |mlist| && (outputAlpha ==> staticIdx == 0)
    ensures forall k :: 0 <= k < staticIdx ==> !EndsStatic(mlist[k], disableOpenGl)
    ensures outputAlpha || staticIdx == |mlist| || EndsStatic(mlist[staticIdx], disableOpenGl)
    ensures forall productId :: background == Visible(mlist[..staticIdx], productId)
  {
    staticIdx, background := 0, [];
    while !outputAlpha && staticIdx < |mlist|
      invariant staticIdx <= |mlist| && (outputAlpha ==> staticIdx == 0)
      invariant forall k :: 0 <= k < staticIdx ==> !EndsStatic(mlist[k], disableOpenGl)
      invariant forall productId :: background == Visible(mlist[..staticIdx], productId)
    {
      var m := mlist[staticIdx];
      if m.productId > 0 {
        break;
      }
      ghost var next := mlist[..staticIdx + 1];
      forall productId ensures Visible(next, productId) == background + if IsAudio(m) then [] else [m] {
        VisibleLast(mlist, staticIdx, productId);
      }
      if !IsAudio(m) {
        if !disableOpenGl && m.tilted {
          break;
        }
        if m.kind != Picture {
          break;
        }
        background := background + [m];
      }
      staticIdx := staticIdx + 1;
    }
  }

  function AtMost(i: nat, n: nat): nat {
    if i < n then i else n
  }

  /** The part of the list that the background stands for. */
  function Front(mlist: seq<Material>, staticIdx: nat): seq<Material> {
    mlist[..AtMost(staticIdx, |mlist|)]
  }

  /** What a frame shows. */
  function Frame(background: seq<Material>, staticIdx: nat, mlist: seq<Material>, productId: int): seq<Material> {
    background + Visible(mlist[|Front(mlist, staticIdx)|..], productId)
  }

  ghost predicate Exact(background: seq<Material>, staticIdx: nat, mlist: seq<Material>, productId: int) {
    Frame(background, staticIdx, mlist, productId) == Visible(mlist, productId)
  }

  lemma ExactIff(background: seq<Material>, staticIdx: nat, mlist: seq<Material>, productId: int)
    ensures Exact(background, staticIdx, mlist, productId)
            <==> background == Visible(Front(mlist, staticIdx), productId)
  {
    FrontDecides(background, mlist, AtMost(staticIdx, |mlist|), productId);
  }

  /** Draws a frame. It shows exactly the list if and only if the background is still what shows of
      the front of the list. */
  method DrawFrame(background: seq<Material>, staticIdx: nat, mlist: seq<Material>, productId: int)
    returns (shown: seq<Material>)
    ensures shown == Visible(mlist, productId) <==> background == Visible(Front(mlist, staticIdx), productId)
    ensures shown == Frame(background, staticIdx, mlist, productId)
  {
    hide Visible;
    shown := background;
    ghost var f := AtMost(staticIdx, |mlist|);
    ghost var drawn := [];
    var i := staticIdx;
    NothingShown(mlist, f, productId);
    while i < |mlist|
      invariant f <= AtMost(i, |mlist|)
      invariant drawn == Visible(mlist[f..AtMost(i, |mlist|)], productId) && shown == background + drawn
    {
      var m := mlist[i];
      NextShown(mlist, f, i, productId);
      if !(m.productId > 0 && productId != m.productId) && !IsAudio(m) {
        shown := shown + [m];
        drawn := drawn + [m];
      }
      i := i + 1;
    }
    assert mlist[f..|mlist|] == mlist[f..];
    FrontDecides(background, mlist, f, productId);
  }

  lemma NothingShown(mlist: seq<Material>, f: nat, productId: int)
    requires f <= |mlist|
    ensures Visible(mlist[f..f], productId) == []
  {
  }

  lemma NextShown(mlist: seq<Material>, f: nat, i: nat, productId: int)
    requires f <= i < |mlist|
    ensures Visible(mlist[f..i + 1], productId) == Visible(mlist[f..i], productId) + Shown(mlist[i], productId)
  {
    hide Visible, Shown;
    VisibleLast(mlist[f..], i - f, productId);
    assert mlist[f..][..i + 1 - f] == mlist[f..i + 1] && mlist[f..][..i - f] == mlist[f..i];
  }

  lemma FrontDecides(background: seq<Material>, mlist: seq<Material>, f: nat, productId: int)
    requires f <= |mlist|
    ensures background + Visible(mlist[f..], productId) == Visible(mlist, productId)
            <==> background == Visible(mlist[..f], productId)
  {
    hide Visible;
    var front, rest := Visible(mlist[..f], productId), Visible(mlist[f..], productId);
    assert mlist == mlist[..f] + mlist[f..];
    VisibleParts(mlist[..f], mlist[f..], productId);
    if background + rest == front + rest {
      assert |background| == |front|;
      assert (background + rest)[..|front|] == background && (front + rest)[..|front|] == front;
    }
  }

  /** A picture that is added below a picture already in the background is never drawn, and the
      one in the background is drawn twice. */
  lemma AddedBelowIsNotDrawn(over: Material, under: Material, productId: int)
    requires !EndsStatic(over, false) && !EndsStatic(under, false) && over.kind == under.kind == Picture
    requires under.layer < over.layer
    ensures Prepared([over], false, Came([under]), [under, over])
    ensures Visible([under, over], productId) == [under, over]
    ensures [over] + Visible([under, over][1..], productId) == [over, over]
  {
    assert multiset([over]) + multiset([under]) == multiset([under, over]);
    assert [under, over][1..] == [over];
    VisibleOne(over, productId);
  }
}
