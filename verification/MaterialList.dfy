/** The main loop's list of materials: what a batch of commands does to it, and the merge and sort
    that bring it back into layer order before a frame is drawn. */
module MaterialList {
  import opened Bytes
  import opened Permutations
  import opened Pacing
  import Mailbox

  /** A picture is an image or a text; an animation, a time or a clock changes by itself. */
  datatype Kind = MainVideo | MainAudio | Video | Audio | Picture | Animated

  datatype Rect = Rect(x: int, y: int, w: int, h: int)

  /** A tilted material is rotated or translucent. */
  datatype Material =
    Material(kind: Kind, layer: int32, productId: int, materialId: int, rect: Rect, tilted: bool)

  /** A command that was read; Add carries what its text was parsed to. */
  datatype Command =
    | Add(productId: int, materialId: int, parsed: Parsed)
    | Del(productId: int, materialId: int)
    | Mod(productId: int, materialId: int, layer: int32, rect: Rect)
    | Stream

  datatype Parsed = Good(material: Material) | Bad

  /** What the mailbox held. */
  datatype Arrival = Nothing | Came(list: seq<Material>)
  {
    function Materials(): seq<Material> {
      if Came? then list else []
    }
  }

  // ---- One command

  predicate IsMain(k: Kind) {
    k == MainVideo || k == MainAudio
  }

  predicate Matches(m: Material, productId: int, materialId: int) {
    (productId <= 0 || m.productId == productId) && m.materialId == materialId
  }

  function Scale(v: int, ratio: real): int {
    Trunc(v as real * ratio)
  }

  function Scaled(r: Rect, xRatio: real, yRatio: real): Rect {
    Rect(Scale(r.x, xRatio), Scale(r.y, yRatio), Scale(r.w, xRatio), Scale(r.h, yRatio))
  }

  /** The first material a command names, or the length of the list. */
  function First(s: seq<Material>, productId: int, materialId: int): (k: nat)
    ensures k <= |s| && (k < |s| ==> Matches(s[k], productId, materialId))
    ensures forall j :: 0 <= j < k ==> !Matches(s[j], productId, materialId)
  {
    if s == [] || Matches(s[0], productId, materialId) then 0
    else 1 + First(s[1..], productId, materialId)
  }

  /** The list without the material named, unless that is a main one. */
  function Deleted(s: seq<Material>, productId: int, materialId: int): seq<Material> {
    var k := First(s, productId, materialId);
    if k == |s| || IsMain(s[k].kind) then s else s[..k] + s[k + 1..]
  }

  predicate CanMove(s: seq<Material>, productId: int, materialId: int) {
    var k := First(s, productId, materialId);
    k < |s| && s[k].kind != MainAudio && s[k].kind != Audio
  }

  /** The list with the material named at its new layer and place. */
  function Moved(s: seq<Material>, productId: int, materialId: int, layer: int32, rect: Rect): seq<Material>
    requires CanMove(s, productId, materialId)
  {
    var k := First(s, productId, materialId);
    s[k := s[k].(layer := layer, rect := rect)]
  }

  /** A material added while running is never a main one. */
  function Demoted(m: Material, productId: int, materialId: int): Material {
    var kind := if m.kind == MainVideo then Video else if m.kind == MainAudio then Audio else m.kind;
    m.(kind := kind, productId := productId, materialId := materialId)
  }

  // ---- A batch

  /** The list, whether a material was moved, and the materials to open. */
  datatype Books = Books(list: seq<Material>, moved: bool, added: seq<Material>)

  function After(b: Books, c: Command, xRatio: real, yRatio: real): Books {
    match c
    case Add(p, id, parsed) =>
      if id >= 1 && parsed.Good? then b.(added := b.added + [Demoted(parsed.material, p, id)]) else b
    case Del(p, id) =>
      if id >= 1 then b.(list := Deleted(b.list, p, id)) else b
    case Mod(p, id, layer, rect) =>
      if id >= 1 && CanMove(b.list, p, id)
      then b.(list := Moved(b.list, p, id, layer, Scaled(rect, xRatio, yRatio)), moved := true)
      else b
    case Stream => b
  }

  function Batch(s: seq<Material>, cmds: seq<Command>, xRatio: real, yRatio: real): Books {
    if cmds == [] then Books(s, false, [])
    else After(Batch(s, cmds[..|cmds| - 1], xRatio, yRatio), cmds[|cmds| - 1], xRatio, yRatio)
  }

  lemma BatchOfNone(s: seq<Material>, xRatio: real, yRatio: real)
    ensures Batch(s, [], xRatio, yRatio) == Books(s, false, [])
  {
  }

  lemma BatchStep(s: seq<Material>, cmds: seq<Command>, i: nat, xRatio: real, yRatio: real)
    requires i < |cmds|
    ensures Batch(s, cmds[..i + 1], xRatio, yRatio)
            == After(Batch(s, cmds[..i], xRatio, yRatio), cmds[i], xRatio, yRatio)
  {
    hide After;
    assert cmds[..i + 1][..i] == cmds[..i];
  }

  /** A command names the first material with its id, of its product or, without one, of any. */
  predicate NamesFirst(s: seq<Material>, productId: int, materialId: int, k: nat) {
    && k < |s| && s[k].materialId == materialId && (productId <= 0 || s[k].productId == productId)
    && forall j :: 0 <= j < k ==> s[j].materialId != materialId || (productId > 0 && s[j].productId != productId)
  }

  predicate NamesNone(s: seq<Material>, productId: int, materialId: int) {
    forall j :: 0 <= j < |s| ==> s[j].materialId != materialId || (productId > 0 && s[j].productId != productId)
  }

  lemma MatchesSpelledOut(s: seq<Material>, productId: int, materialId: int)
    ensures forall j :: 0 <= j < |s| ==>
              (Matches(s[j], productId, materialId)
               <==> !(s[j].materialId != materialId || (productId > 0 && s[j].productId != productId)))
  {
  }

  lemma FirstIsNamed(s: seq<Material>, productId: int, materialId: int, k: nat)
    requires NamesFirst(s, productId, materialId, k)
    ensures First(s, productId, materialId) == k
  {
    hide Matches, First;
    MatchesSpelledOut(s, productId, materialId);
  }

  lemma NoneIsNamed(s: seq<Material>, productId: int, materialId: int)
    requires NamesNone(s, productId, materialId)
    ensures First(s, productId, materialId) == |s|
  {
    hide Matches, First;
    MatchesSpelledOut(s, productId, materialId);
  }

  /** n is v times the ratio, without its fraction. */
  predicate Truncated(v: int, ratio: real, n: int) {
    var x := v as real * ratio;
    if x >= 0.0 then n as real <= x < n as real + 1.0 else n as real - 1.0 < x <= n as real
  }

  /** What each command does: a deletion takes out the first material named, and only that, unless it
      is a main one; */
  lemma DelEffect(b: Books, productId: int, materialId: int, k: nat, xRatio: real, yRatio: real)
    requires materialId >= 1 && NamesFirst(b.list, productId, materialId, k)
    ensures After(b, Del(productId, materialId), xRatio, yRatio) ==
            if b.list[k].kind == MainVideo || b.list[k].kind == MainAudio then b
            else b.(list := b.list[..k] + b.list[k + 1..])
  {
    FirstIsNamed(b.list, productId, materialId, k);
  }

  /** a modification puts it on its layer, at its scaled place, unless it is audio, and asks for a
      sort; */
  lemma ModEffect(b: Books, productId: int, materialId: int, layer: int32, rect: Rect, k: nat,
                  xRatio: real, yRatio: real)
    requires materialId >= 1 && NamesFirst(b.list, productId, materialId, k)
    ensures var t, m := After(b, Mod(productId, materialId, layer, rect), xRatio, yRatio), b.list[k];
            if m.kind == MainAudio || m.kind == Audio then t == b
            else
              && t.moved && t.added == b.added && |t.list| == |b.list|
              && (forall j :: 0 <= j < |b.list| && j != k ==> t.list[j] == b.list[j])
              && t.list[k] == m.(layer := layer, rect := t.list[k].rect)
              && Truncated(rect.x, xRatio, t.list[k].rect.x)
              && Truncated(rect.y, yRatio, t.list[k].rect.y)
              && Truncated(rect.w, xRatio, t.list[k].rect.w)
              && Truncated(rect.h, yRatio, t.list[k].rect.h)
  {
    hide Scaled, Truncated;
    FirstIsNamed(b.list, productId, materialId, k);
    ScaledIs(rect, xRatio, yRatio);
  }

  lemma ScaledIs(r: Rect, xRatio: real, yRatio: real)
    ensures var t := Scaled(r, xRatio, yRatio);
            && Truncated(r.x, xRatio, t.x) && Truncated(r.y, yRatio, t.y)
            && Truncated(r.w, xRatio, t.w) && Truncated(r.h, yRatio, t.h)
  {
    hide Truncated, Scale;
    ScaleIs(r.x, xRatio);
    ScaleIs(r.y, yRatio);
    ScaleIs(r.w, xRatio);
    ScaleIs(r.h, yRatio);
  }

  lemma ScaleIs(v: int, ratio: real)
    ensures Truncated(v, ratio, Scale(v, ratio))
  {
    var x := v as real * ratio;
    FloorBounds(x);
    FloorBounds(-x);
  }

  /** an addition goes to the materials to open, with the ids of the command and never as a main one;
      and a command with a bad id, one that names nothing, and a stream command change nothing. */
  lemma AddEffect(b: Books, productId: int, materialId: int, m: Material, xRatio: real, yRatio: real)
    requires materialId >= 1
    ensures var t := After(b, Add(productId, materialId, Good(m)), xRatio, yRatio);
            && t.list == b.list && t.moved == b.moved && |t.added| == |b.added| + 1 && t.added[..|b.added|] == b.added
            && var n := t.added[|b.added|];
               && n.productId == productId && n.materialId == materialId
               && n.layer == m.layer && n.rect == m.rect && n.tilted == m.tilted
               && n.kind == (match m.kind case MainVideo => Video case MainAudio => Audio case other => other)
  {
  }

  lemma NoEffect(b: Books, c: Command, xRatio: real, yRatio: real)
    requires match c
             case Add(_, id, parsed) => id < 1 || parsed.Bad?
             case Del(p, id) => id < 1 || NamesNone(b.list, p, id)
             case Mod(p, id, _, _) => id < 1 || NamesNone(b.list, p, id)
             case Stream => true
    ensures After(b, c, xRatio, yRatio) == b
  {
    match c
    case Del(p, id) => if id >= 1 { NoneIsNamed(b.list, p, id); }
    case Mod(p, id, _, _) => if id >= 1 { NoneIsNamed(b.list, p, id); }
    case _ =>
  }

  // ---- Order

  ghost predicate Sorted(s: seq<Material>) {
    forall i, j :: 0 <= i < j < |s| ==> s[i].layer <= s[j].layer
  }

  /** A 32-bit result. */
  function Wrap32(x: int): int32 {
    (x + 0x8000_0000) % 0x1_0000_0000 - 0x8000_0000
  }

  /** The comparator of both sorts: the sign of a 32-bit difference. */
  predicate Before(a: Material, b: Material) {
    Wrap32(a.layer - b.layer) < 0
  }

  predicate Near(a: Material, b: Material) {
    -0x8000_0000 < a.layer - b.layer < 0x8000_0000
  }

  /** All differences of layers fit 32 bits. */
  ghost predicate Fits(s: seq<Material>) {
    forall a, b :: a in s && b in s ==> Near(a, b)
  }

  /** The comparator orders two materials by layer, both ways round, exactly when their difference
      fits 32 bits. */
  lemma BeforeIff(a: Material, b: Material)
    ensures (Before(a, b) <==> a.layer < b.layer) && (Before(b, a) <==> b.layer < a.layer) <==> Near(a, b)
  {
  }

  ghost predicate Ordered(a: Material, b: Material) {
    Before(a, b) <==> a.layer < b.layer
  }

  /** It orders a whole list by layer exactly when all differences fit. */
  lemma ComparatorIff(s: seq<Material>)
    ensures (forall a, b :: a in s && b in s ==> Ordered(a, b)) <==> Fits(s)
  {
    forall a, b | a in s && b in s
      ensures Near(a, b) <==> Ordered(a, b) && Ordered(b, a)
    {
      BeforeIff(a, b);
    }
  }

  /** Two layers a command line can name, which come out in the wrong order. */
  lemma TooFarApart(a: Material, b: Material)
    requires a.layer == 2147483647 && b.layer == -2
    ensures Before(a, b) && !Before(b, a) && !Sorted([a, b]) && !Fits([a, b])
  {
    assert [a, b][0] == a && [a, b][1] == b;
    assert !Near(a, b);
    assert a in [a, b] && b in [a, b];
  }

  /** Only a modification can break the order, and it sets the flag. */
  lemma {:induction false} OrderHoldsUntilMoved(s: seq<Material>, cmds: seq<Command>, xRatio: real, yRatio: real)
    requires Sorted(s)
    ensures var b := Batch(s, cmds, xRatio, yRatio); b.moved || Sorted(b.list)
  {
    if cmds != [] {
      OrderHoldsUntilMoved(s, cmds[..|cmds| - 1], xRatio, yRatio);
    }
  }

  /** What one frame makes of the list the commands left, and of what the mailbox held: in layer
      order if the layers fit, no material more and none less; without a delivery or a move not even
      reordered. */
  ghost predicate Prepared(list: seq<Material>, moved: bool, arrival: Arrival, s: seq<Material>) {
    && multiset(s) == multiset(list) + multiset(arrival.Materials())
    && if arrival.Came? || moved then Fits(s) ==> Sorted(s) else s == list
  }

  // ---- Main materials

  function MainOf(m: Material): seq<Kind> {
    if IsMain(m.kind) then [m.kind] else []
  }

  /** The main materials' kinds, in list order. */
  function Mains(s: seq<Material>): seq<Kind> {
    if s == [] then []
    else MainOf(s[0]) + Mains(s[1..])
  }

  lemma {:induction false} MainsOfParts(a: seq<Material>, b: seq<Material>)
    ensures Mains(a + b) == Mains(a) + Mains(b)
    decreases a
  {
    hide MainOf;
    if a == [] {
      assert a + b == b;
    } else {
      MainsOfParts(a[1..], b);
      assert (a + b)[1..] == a[1..] + b;
      Associates(MainOf(a[0]), Mains(a[1..]), Mains(b));
    }
  }

  lemma MainsAround(s: seq<Material>, k: nat)
    requires k < |s|
    ensures Mains(s) == Mains(s[..k]) + Mains([s[k]]) + Mains(s[k + 1..])
  {
    hide Mains;
    var a, m, b := s[..k], [s[k]], s[k + 1..];
    assert s == a + s[k..];
    assert s[k..] == m + b;
    MainsOfParts(a, s[k..]);
    MainsOfParts(m, b);
    Associates(Mains(a), Mains(m), Mains(b));
  }

  lemma {:induction false} NoMains(s: seq<Material>)
    requires forall i :: 0 <= i < |s| ==> !IsMain(s[i].kind)
    ensures Mains(s) == []
  {
    if s != [] {
      NoMains(s[1..]);
    }
  }

  lemma DeletedKeepsMains(s: seq<Material>, productId: int, materialId: int)
    ensures Mains(Deleted(s, productId, materialId)) == Mains(s)
  {
    hide First, Mains;
    var k := First(s, productId, materialId);
    if k < |s| && !IsMain(s[k].kind) {
      MainsAround(s, k);
      MainsOfParts(s[..k], s[k + 1..]);
      NoMains([s[k]]);
    }
  }

  lemma MovedKeepsMains(s: seq<Material>, productId: int, materialId: int, layer: int32, rect: Rect)
    requires CanMove(s, productId, materialId)
    ensures Mains(Moved(s, productId, materialId, layer, rect)) == Mains(s)
  {
    hide First;
    var k, t := First(s, productId, materialId), Moved(s, productId, materialId, layer, rect);
    MainsAround(s, k);
    MainsAround(t, k);
    assert t[..k] == s[..k] && t[k + 1..] == s[k + 1..];
  }

  /** Commands never take a main material away, change its kind or add one. */
  lemma {:induction false} CommandsKeepMains(s: seq<Material>, cmds: seq<Command>, xRatio: real, yRatio: real)
    ensures Mains(Batch(s, cmds, xRatio, yRatio).list) == Mains(s)
    ensures Mains(Batch(s, cmds, xRatio, yRatio).added) == []
  {
    hide Deleted, Moved, CanMove, Scaled, Mains;
    NoMains([]);
    if cmds != [] {
      var b := Batch(s, cmds[..|cmds| - 1], xRatio, yRatio);
      CommandsKeepMains(s, cmds[..|cmds| - 1], xRatio, yRatio);
      match cmds[|cmds| - 1]
      case Add(p, id, parsed) =>
        if parsed.Good? {
          MainsOfParts(b.added, [Demoted(parsed.material, p, id)]);
          NoMains([Demoted(parsed.material, p, id)]);
        }
      case Del(p, id) => DeletedKeepsMains(b.list, p, id);
      case Mod(p, id, layer, rect) =>
        if CanMove(b.list, p, id) {
          MovedKeepsMains(b.list, p, id, layer, Scaled(rect, xRatio, yRatio));
        }
      case Stream =>
    }
  }

  lemma {:induction false} ReorderKeepsMains(a: seq<Material>, b: seq<Material>)
    requires multiset(a) == multiset(b)
    ensures multiset(Mains(a)) == multiset(Mains(b))
    decreases a
  {
    assert |a| == |multiset(a)| == |multiset(b)| == |b|;
    if a != [] {
      var k := TakeOut(a, b);
      ReorderKeepsMains(a[1..], b[..k] + b[k + 1..]);
      MainsAround(b, k);
      MainsOfParts(b[..k], b[k + 1..]);
    }
  }

  /** Preparing a frame keeps the main materials when no main one arrives. */
  lemma PreparedKeepsMains(list: seq<Material>, moved: bool, arrival: Arrival, s: seq<Material>)
    requires Prepared(list, moved, arrival, s) && Mains(arrival.Materials()) == []
    ensures multiset(Mains(s)) == multiset(Mains(list))
  {
    hide Mains, Sorted;
    MainsOfParts(list, arrival.Materials());
    ReorderKeepsMains(s, list + arrival.Materials());
  }

  /** What opening makes of a list: an image may turn out to be an animation, and places, sizes and
      tilts are worked out. */
  ghost predicate OpenedAs(a: seq<Material>, b: seq<Material>) {
    && |a| == |b|
    && forall k :: 0 <= k < |a| ==>
         && b[k] == a[k].(kind := b[k].kind, rect := b[k].rect, tilted := b[k].tilted)
         && (b[k].kind == a[k].kind || (a[k].kind == Picture && b[k].kind == Animated))
  }

  lemma {:induction false} OpeningKeepsMains(a: seq<Material>, b: seq<Material>)
    requires OpenedAs(a, b)
    ensures Mains(b) == Mains(a)
    decreases a
  {
    if a != [] {
      OpeningKeepsMains(a[1..], b[1..]);
    }
  }

  /** What the mailbox delivers was opened, so it holds no main material either. */
  lemma DeliveriesHaveNoMains(steps: seq<Mailbox.Step<seq<Material>>>, k: nat)
    requires Mailbox.Possible(steps) && k < |Mailbox.Run(steps).delivered|
    requires forall j :: 0 <= j < |steps| && steps[j].OpenSucceeds? ==> Mains(steps[j].result) == []
    ensures Mains(Mailbox.Run(steps).delivered[k].list) == []
  {
    hide Mains;
    Mailbox.DeliveredOnce(steps);
  }

  // ---- The loops

  method FindFirst(s: seq<Material>, productId: int, materialId: int) returns (k: nat)
    ensures k == First(s, productId, materialId)
  {
    k := 0;
    while k < |s| && !Matches(s[k], productId, materialId)
      invariant k <= |s| && First(s, productId, materialId) == k + First(s[k..], productId, materialId)
    {
      k := k + 1;
    }
  }

  lemma InsertKeepsOrder(r: seq<Material>, k: nat, m: Material)
    requires Sorted(r) && k <= |r| && (k > 0 ==> r[k - 1].layer <= m.layer)
    requires forall j :: k <= j < |r| ==> r[j].layer > m.layer
    ensures Sorted(r[..k] + [m] + r[k..])
  {
    assert forall j :: 0 <= j < k ==> r[j].layer <= r[k - 1].layer;
  }

  lemma InsertKeepsElements(r: seq<Material>, k: nat, m: Material)
    requires k <= |r|
    ensures multiset(r[..k] + [m] + r[k..]) == multiset(r) + multiset{m}
  {
    assert r == r[..k] + r[k..];
  }

  lemma SortedEmpty()
    ensures Sorted([])
  {
  }

  /** std::sort with the comparator: which order materials of one layer come out in is left open,
      and so is the whole order when the layers do not fit. */
  method SortByLayer(s: seq<Material>) returns (r: seq<Material>)
    ensures multiset(r) == multiset(s)
    ensures Fits(s) ==> Sorted(r)
  {
    hide Sorted, Fits, Before;
    r := [];
    SortedEmpty();
    for i := 0 to |s|
      invariant multiset(r) == multiset(s[..i])
      invariant Fits(s) ==> Sorted(r)
    {
      var k := |r|;
      while k > 0 && Before(s[i], r[k - 1])
        invariant 0 <= k <= |r|
        invariant forall j :: k <= j < |r| ==> Before(s[i], r[j])
      {
        k := k - 1;
      }
      assert s[..i + 1] == s[..i] + [s[i]];
      if Fits(s) {
        TakenFrom(s, i, r);
        PlaceIsRight(s, r, k, s[i]);
        InsertKeepsOrder(r, k, s[i]);
      }
      InsertKeepsElements(r, k, s[i]);
      r := r[..k] + [s[i]] + r[k..];
    }
    assert s[..|s|] == s;
  }

  lemma TakenFrom(s: seq<Material>, i: nat, r: seq<Material>)
    requires i <= |s| && multiset(r) == multiset(s[..i])
    ensures forall j :: 0 <= j < |r| ==> r[j] in s
  {
    forall j | 0 <= j < |r| ensures r[j] in s {
      assert r[j] in multiset(r);
      assert r[j] in s[..i];
    }
  }

  lemma PlaceIsRight(s: seq<Material>, r: seq<Material>, k: nat, m: Material)
    requires Fits(s) && m in s && k <= |r| && forall j :: 0 <= j < |r| ==> r[j] in s
    requires (k > 0 ==> !Before(m, r[k - 1])) && forall j :: k <= j < |r| ==> Before(m, r[j])
    ensures k > 0 ==> r[k - 1].layer <= m.layer
    ensures forall j :: k <= j < |r| ==> r[j].layer > m.layer
  {
    forall j | 0 <= j < |r| ensures Near(m, r[j]) && (Before(m, r[j]) <==> m.layer < r[j].layer) {
      BeforeIff(m, r[j]);
    }
  }

  class Player {
    var mlist: seq<Material>

    constructor (materials: seq<Material>)
      ensures multiset(mlist) == multiset(materials) && (Fits(materials) ==> Sorted(mlist))
    {
      var sorted := SortByLayer(materials);
      mlist := sorted;
    }

    method RunCommands(cmds: seq<Command>, xRatio: real, yRatio: real) returns (modified: bool, newMlist: seq<Material>)
      modifies this
      ensures Books(mlist, modified, newMlist) == Batch(old(mlist), cmds, xRatio, yRatio)
    {
      hide Batch, First, Scaled, Demoted;
      modified, newMlist := false, [];
      BatchOfNone(mlist, xRatio, yRatio);
      for i := 0 to |cmds|
        invariant Books(mlist, modified, newMlist) == Batch(old(mlist), cmds[..i], xRatio, yRatio)
      {
        BatchStep(old(mlist), cmds, i, xRatio, yRatio);
        var c := cmds[i];
        if !c.Stream? && c.materialId < 1 {
          continue;
        }
        match c
        case Add(p, id, parsed) =>
          if parsed.Good? {
            newMlist := newMlist + [Demoted(parsed.material, p, id)];
          }
        case Del(p, id) =>
          var k := FindFirst(mlist, p, id);
          if k < |mlist| && !IsMain(mlist[k].kind) {
            mlist := mlist[..k] + mlist[k + 1..];
          }
        case Mod(p, id, layer, rect) =>
          var k := FindFirst(mlist, p, id);
          if k < |mlist| && mlist[k].kind != MainAudio && mlist[k].kind != Audio {
            mlist := mlist[k := mlist[k].(layer := layer, rect := Scaled(rect, xRatio, yRatio))];
            modified := true;
          }
        case Stream =>
      }
      assert cmds[..|cmds|] == cmds;
    }

    /** One frame up to the drawing: the commands, then what the mailbox held. */
    method PrepareFrame(cmds: seq<Command>, xRatio: real, yRatio: real, arrival: Arrival)
      returns (newMlist: seq<Material>)
      modifies this
      ensures Sorted(old(mlist)) && Fits(mlist) ==> Sorted(mlist)
      ensures var b := Batch(old(mlist), cmds, xRatio, yRatio);
              && newMlist == b.added && Mains(newMlist) == []
              && Prepared(b.list, b.moved, arrival, mlist)
              && (Mains(arrival.Materials()) == [] ==> multiset(Mains(mlist)) == multiset(Mains(old(mlist))))
    {
      hide Batch, Mains, Sorted, Fits;
      var modified;
      modified, newMlist := RunCommands(cmds, xRatio, yRatio);
      if Sorted(old(mlist)) {
        OrderHoldsUntilMoved(old(mlist), cmds, xRatio, yRatio);
      }
      CommandsKeepMains(old(mlist), cmds, xRatio, yRatio);
      ghost var list := mlist;
      if arrival.Came? || modified {
        if arrival.Came? {
          mlist := mlist + arrival.list;
        }
        ghost var whole := mlist;
        mlist := SortByLayer(mlist);
        SameElements(whole, mlist);
      }
      if Mains(arrival.Materials()) == [] {
        PreparedKeepsMains(list, modified, arrival, mlist);
      }
    }
  }

  lemma SameElements(s: seq<Material>, t: seq<Material>)
    requires multiset(s) == multiset(t)
    ensures Fits(s) <==> Fits(t)
  {
    forall m ensures m in s <==> m in t {
      assert m in multiset(s) <==> m in multiset(t);
    }
  }
}
