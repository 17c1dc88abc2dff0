/**
 Bullets: firing under the cap (`_fire_bullet`), moving and culling
 (`_update_bullets`), and resolving bullet/alien collisions with the
 wave-clear rule (`_check_bullet_alien_collisions`).
 */
module Bullets {
  import opened Geometry
  import opened Filtering
  import opened Game
  import opened Fleet

  /* ---------------------------------------------------------------
     Firing
     --------------------------------------------------------------- */

  /** `_fire_bullet`: a new bullet `shot` (created by the unmodelled
      `Bullet` class at the ship's nose) joins the group only while fewer
      than `bulletsAllowed` bullets are alive. */
  function FireBullet(s: Settings, shot: Rect, w: World): (r: World)
    ensures |w.bullets| < s.bulletsAllowed ==> r.bullets == w.bullets + [shot]
    ensures |w.bullets| >= s.bulletsAllowed ==> r == w
    ensures |r.bullets| == |w.bullets| + 1 <==> |w.bullets| < s.bulletsAllowed
    ensures |w.bullets| <= s.bulletsAllowed ==> |r.bullets| <= s.bulletsAllowed
    ensures r.(bullets := w.bullets) == w
  {
    if |w.bullets| < s.bulletsAllowed then w.(bullets := w.bullets + [shot]) else w
  }

  /* ---------------------------------------------------------------
     Moving and culling
     --------------------------------------------------------------- */

  /** A bullet is kept while its bottom edge is below the top of the screen. */
  predicate OnScreen(b: Rect) {
    b.Bottom() > 0
  }

  /** The bullets kept by the cull, in their original order. */
  function Cull(bullets: seq<Rect>): seq<Rect> {
    Filter(OnScreen, bullets)
  }

  /** The cull keeps exactly the bullets whose bottom is below the top of
      the screen: each kept bullet is on screen, each bullet on screen is
      kept, and culling a concatenation culls each part in order. */
  lemma CullKeepsExactlyOnScreen(bullets: seq<Rect>, more: seq<Rect>)
    ensures forall i :: 0 <= i < |Cull(bullets)| ==> Cull(bullets)[i].Bottom() > 0
    ensures forall i :: 0 <= i < |bullets| && bullets[i].Bottom() > 0 ==> bullets[i] in Cull(bullets)
    ensures Cull(bullets + more) == Cull(bullets) + Cull(more)
    ensures Cull(Cull(bullets)) == Cull(bullets)
  {
    FilterAppend(OnScreen, bullets, more);
    FilterIdempotent(OnScreen, bullets);
  }

  /** Culling one more bullet appends it exactly when it is on screen. */
  lemma CullSnoc(bullets: seq<Rect>, b: Rect)
    ensures Cull(bullets + [b]) == Cull(bullets) + (if b.Bottom() > 0 then [b] else [])
  {
    FilterAppend(OnScreen, bullets, [b]);
    assert [b][1..] == [];
  }

  /** The cull as written: walk a copy of the group and drop every bullet
      whose bottom is at or above the top of the screen. */
  method CullBullets(bullets: seq<Rect>) returns (kept: seq<Rect>)
    ensures kept == Cull(bullets)
  {
    kept := [];
    var i := 0;
    while i < |bullets|
      invariant 0 <= i <= |bullets|
      invariant kept == Cull(bullets[..i])
    {
      assert bullets[..i + 1] == bullets[..i] + [bullets[i]];
      CullSnoc(bullets[..i], bullets[i]);
      if bullets[i].Bottom() > 0 {
        kept := kept + [bullets[i]];
      }
      i := i + 1;
    }
    assert bullets[..i] == bullets;
  }

  /** Every bullet after one step of the unmodelled `Bullet.update`. */
  function MoveAll(move: Rect -> Rect, bullets: seq<Rect>): (r: seq<Rect>)
    ensures |r| == |bullets|
    ensures forall i :: 0 <= i < |r| ==> r[i] == move(bullets[i])
  {
    seq(|bullets|, i requires 0 <= i < |bullets| => move(bullets[i]))
  }

  /* ---------------------------------------------------------------
     Collisions
     --------------------------------------------------------------- */

  /** Some alien of `aliens` overlaps bullet `b`. */
  predicate HitsAny(b: Rect, aliens: seq<Rect>) {
    exists i :: 0 <= i < |aliens| && Overlaps(b, aliens[i])
  }

  /** No bullet of `bullets` overlaps alien `a`. */
  predicate Untouched(bullets: seq<Rect>, a: Rect) {
    forall j :: 0 <= j < |bullets| ==> !Overlaps(bullets[j], a)
  }

  function MissedBy(b: Rect): Rect -> bool {
    a => !Overlaps(b, a)
  }

  function UntouchedBy(bullets: seq<Rect>): Rect -> bool {
    a => Untouched(bullets, a)
  }

  function MissesAll(aliens: seq<Rect>): Rect -> bool {
    b => !HitsAny(b, aliens)
  }

  /** The aliens bullet `b` does not overlap. */
  function Spare(b: Rect, aliens: seq<Rect>): seq<Rect> {
    Filter(MissedBy(b), aliens)
  }

  /** The aliens no bullet of `bullets` overlaps. */
  function Unhit(bullets: seq<Rect>, aliens: seq<Rect>): seq<Rect> {
    Filter(UntouchedBy(bullets), aliens)
  }

  datatype Survivors = Survivors(bullets: seq<Rect>, aliens: seq<Rect>)

  /** `pygame.sprite.groupcollide(bullets, aliens, True, True)`: each bullet
      in turn kills every alien still alive that it overlaps, and is itself
      killed when it overlapped at least one of them. A bullet whose only
      target was killed by an earlier bullet therefore survives. */
  function GroupCollide(bullets: seq<Rect>, aliens: seq<Rect>): Survivors
    decreases |bullets|
  {
    if bullets == [] then Survivors([], aliens)
    else
      var b := bullets[0];
      var later := GroupCollide(bullets[1..], Spare(b, aliens));
      if HitsAny(b, aliens) then later
      else Survivors([b] + later.bullets, later.aliens)
  }

  /** The independent, order-free account of the aliens that survive: an
      alien survives exactly when no bullet overlaps it, whatever order the
      bullets are taken in. */
  lemma {:induction false} GroupCollideAliens(bullets: seq<Rect>, aliens: seq<Rect>)
    ensures GroupCollide(bullets, aliens).aliens == Unhit(bullets, aliens)
  {
    if bullets == [] {
      FilterKeepsAll(UntouchedBy(bullets), aliens);
    } else {
      var b, rest := bullets[0], bullets[1..];
      GroupCollideAliens(rest, Spare(b, aliens));
      assert bullets == [b] + rest;
      UnhitCons(b, rest, aliens);
    }
  }

  /** Taking bullet `b` first and then `rest` over the aliens `b` spared
      leaves the aliens that no bullet of `[b] + rest` overlaps. */
  lemma UnhitCons(b: Rect, rest: seq<Rect>, aliens: seq<Rect>)
    ensures Unhit(rest, Spare(b, aliens)) == Unhit([b] + rest, aliens)
  {
    var bullets := [b] + rest;
    forall a
      ensures UntouchedBy(bullets)(a) == (MissedBy(b)(a) && UntouchedBy(rest)(a))
    {
      if Untouched(bullets, a) {
        assert !Overlaps(bullets[0], a);
        forall j | 0 <= j < |rest| ensures !Overlaps(rest[j], a) {
          assert rest[j] == bullets[j + 1];
        }
      }
    }
    FilterFilter(MissedBy(b), UntouchedBy(rest), UntouchedBy(bullets), aliens);
  }

  /** Bullet `b` facing the aliens still alive: it is removed when it
      overlaps one of them and kept otherwise. */
  function Judge(b: Rect, alive: seq<Rect>): seq<Rect> {
    if HitsAny(b, alive) then [] else [b]
  }

  /** The order-dependent account of the surviving bullets: of the first
      `n` bullets, in order, those that overlap none of the aliens left
      alive by the bullets before them. */
  function KeptPrefix(bullets: seq<Rect>, aliens: seq<Rect>, n: nat): seq<Rect>
    requires n <= |bullets|
    decreases n
  {
    if n == 0 then []
    else
      KeptPrefix(bullets, aliens, n - 1) + Judge(bullets[n - 1], Unhit(bullets[..n - 1], aliens))
  }

  /** Bullet `n` of `[b] + rest` is judged as bullet `n - 1` of `rest` is
      against the aliens `b` spared. */
  lemma KeptPrefixStep(b: Rect, rest: seq<Rect>, aliens: seq<Rect>, n: nat)
    requires 0 < n <= |rest|
    ensures KeptPrefix([b] + rest, aliens, n + 1) ==
      KeptPrefix([b] + rest, aliens, n) +
      Judge(rest[n - 1], Unhit(rest[..n - 1], Spare(b, aliens)))
  {
    var bullets := [b] + rest;
    assert bullets[..n] == [b] + rest[..n - 1];
    UnhitCons(b, rest[..n - 1], aliens);
    assert bullets[n] == rest[n - 1];
  }

  /** Splitting off the first bullet: it is kept when it overlaps no alien,
      and the later bullets are judged against the aliens it spared. */
  lemma {:induction false} KeptPrefixCons(b: Rect, rest: seq<Rect>, aliens: seq<Rect>, n: nat)
    requires n <= |rest|
    ensures KeptPrefix([b] + rest, aliens, n + 1) == Judge(b, aliens) + KeptPrefix(rest, Spare(b, aliens), n)
  {
    if n == 0 {
      KeptPrefixFirst(b, rest, aliens);
    } else {
      var spared := Spare(b, aliens);
      var last := Judge(rest[n - 1], Unhit(rest[..n - 1], spared));
      var head, mid := Judge(b, aliens), KeptPrefix(rest, spared, n - 1);
      KeptPrefixStep(b, rest, aliens, n);
      KeptPrefixCons(b, rest, aliens, n - 1);
      assert KeptPrefix(rest, spared, n) == mid + last;
      assert KeptPrefix([b] + rest, aliens, n + 1) == (head + mid) + last;
      assert (head + mid) + last == head + (mid + last);
    }
  }

  /** The first bullet is judged against all the aliens. */
  lemma KeptPrefixFirst(b: Rect, rest: seq<Rect>, aliens: seq<Rect>)
    ensures KeptPrefix([b] + rest, aliens, 1) == Judge(b, aliens)
  {
    var bullets := [b] + rest;
    assert bullets[..0] == [];
    FilterKeepsAll(UntouchedBy([]), aliens);
  }

  /** The bullets the pass keeps are exactly those that, when their turn
      comes, overlap none of the aliens the earlier bullets left alive. */
  lemma {:induction false} GroupCollideBullets(bullets: seq<Rect>, aliens: seq<Rect>)
    ensures GroupCollide(bullets, aliens).bullets == KeptPrefix(bullets, aliens, |bullets|)
  {
    if bullets != [] {
      var b, rest := bullets[0], bullets[1..];
      GroupCollideBullets(rest, Spare(b, aliens));
      assert bullets == [b] + rest;
      KeptPrefixCons(b, rest, aliens, |rest|);
    }
  }

  /** Surviving bullets are some of the bullets, and surviving aliens some
      of the aliens, counted with multiplicity; neither group grows. */
  lemma {:induction false} GroupCollideShrinks(bullets: seq<Rect>, aliens: seq<Rect>)
    ensures multiset(GroupCollide(bullets, aliens).bullets) <= multiset(bullets)
    ensures multiset(GroupCollide(bullets, aliens).aliens) <= multiset(aliens)
    ensures |GroupCollide(bullets, aliens).bullets| <= |bullets|
    ensures |GroupCollide(bullets, aliens).aliens| <= |aliens|
  {
    GroupCollideAliens(bullets, aliens);
    FilterSubMultiset(UntouchedBy(bullets), aliens);
    if bullets != [] {
      GroupCollideShrinks(bullets[1..], Spare(bullets[0], aliens));
      assert bullets == [bullets[0]] + bullets[1..];
    }
  }

  /** No bullet of `bullets` overlaps an alien of `aliens`. */
  predicate Apart(bullets: seq<Rect>, aliens: seq<Rect>) {
    forall i, j :: 0 <= i < |bullets| && 0 <= j < |aliens| ==> !Overlaps(bullets[i], aliens[j])
  }

  /** After resolution no surviving bullet overlaps a surviving alien. */
  lemma {:induction false} GroupCollideApart(bullets: seq<Rect>, aliens: seq<Rect>)
    ensures Apart(GroupCollide(bullets, aliens).bullets, GroupCollide(bullets, aliens).aliens)
  {
    if bullets != [] {
      var b := bullets[0];
      var spared := Spare(b, aliens);
      var later := GroupCollide(bullets[1..], spared);
      GroupCollideApart(bullets[1..], spared);
      GroupCollideAliens(bullets[1..], spared);
      assert forall j :: 0 <= j < |later.aliens| ==> MissedBy(b)(later.aliens[j]);
      if !HitsAny(b, aliens) {
        var r := GroupCollide(bullets, aliens);
        assert r.bullets == [b] + later.bullets && r.aliens == later.aliens;
        forall i, j | 0 <= i < |r.bullets| && 0 <= j < |r.aliens|
          ensures !Overlaps(r.bullets[i], r.aliens[j])
        {
          if i > 0 {
            assert r.bullets[i] == later.bullets[i - 1];
          }
        }
      }
    }
  }

  /** A bullet that overlaps no alien at all is never removed. */
  lemma {:induction false} GroupCollideKeepsMisses(bullets: seq<Rect>, aliens: seq<Rect>)
    ensures forall i :: 0 <= i < |bullets| && !HitsAny(bullets[i], aliens) ==>
      bullets[i] in GroupCollide(bullets, aliens).bullets
  {
    if bullets != [] {
      var b, rest := bullets[0], bullets[1..];
      var spared := Spare(b, aliens);
      GroupCollideKeepsMisses(rest, spared);
      forall i | 0 < i < |bullets| && !HitsAny(bullets[i], aliens)
        ensures !HitsAny(rest[i - 1], spared)
      {
        assert rest[i - 1] == bullets[i];
      }
    }
  }

  /** The order-free two-filter reading of the collision: a bullet goes
      when it overlaps any alien, an alien when any bullet overlaps it. */
  function Simultaneous(bullets: seq<Rect>, aliens: seq<Rect>): Survivors {
    Survivors(Filter(MissesAll(aliens), bullets), Unhit(bullets, aliens))
  }

  /** The sequential resolution removes the same aliens as the two-filter
      reading and keeps every bullet that reading keeps, in order of
      appearance. */
  lemma SequentialAgreesOnAliens(bullets: seq<Rect>, aliens: seq<Rect>)
    ensures GroupCollide(bullets, aliens).aliens == Simultaneous(bullets, aliens).aliens
    ensures forall b :: b in Simultaneous(bullets, aliens).bullets ==> b in GroupCollide(bullets, aliens).bullets
  {
    GroupCollideAliens(bullets, aliens);
    GroupCollideKeepsMisses(bullets, aliens);
  }

  /** Two bullets over the same single alien: the first kills it, and the
      second, which then overlaps nothing alive, survives. */
  lemma SecondBulletOnSameAlienSurvives(alien: Rect, b1: Rect, b2: Rect)
    requires Overlaps(b1, alien) && Overlaps(b2, alien)
    ensures GroupCollide([b1, b2], [alien]) == Survivors([b2], [])
  {
    assert Spare(b1, [alien]) == [] by {
      assert !MissedBy(b1)([alien][0]);
      FilterKeepsNone(MissedBy(b1), [alien]);
    }
    assert GroupCollide([b2], []) == Survivors([b2], []) by {
      assert [b2][1..] == [];
      assert Spare(b2, []) == [];
      assert !HitsAny(b2, []);
    }
    assert GroupCollide([b1, b2], [alien]) == GroupCollide([b2], Spare(b1, [alien])) by {
      assert [b1, b2][1..] == [b2];
      assert HitsAny(b1, [alien]) by {
        assert Overlaps(b1, [alien][0]);
      }
    }
  }

  /** The two-filter reading of the same situation removes both bullets. */
  lemma TwoFilterReadingDropsBothBullets(alien: Rect, b1: Rect, b2: Rect)
    requires Overlaps(b1, alien) && Overlaps(b2, alien)
    ensures Simultaneous([b1, b2], [alien]) == Survivors([], [])
  {
    assert Filter(MissesAll([alien]), [b1, b2]) == [] by {
      assert Overlaps(b1, [alien][0]) && Overlaps(b2, [alien][0]);
      FilterKeepsNone(MissesAll([alien]), [b1, b2]);
    }
    assert Unhit([b1, b2], [alien]) == [] by {
      assert Overlaps([b1, b2][0], alien);
      FilterKeepsNone(UntouchedBy([b1, b2]), [alien]);
    }
  }

  /** The facts about one collision pass that `CheckCollisions` relies on. */
  lemma GroupCollideFacts(bullets: seq<Rect>, aliens: seq<Rect>)
    ensures var hit := GroupCollide(bullets, aliens);
      && hit.aliens == Unhit(bullets, aliens)
      && hit.bullets == KeptPrefix(bullets, aliens, |bullets|)
      && |hit.bullets| <= |bullets| && |hit.aliens| <= |aliens|
      && Apart(hit.bullets, hit.aliens)
      && (forall i :: 0 <= i < |hit.bullets| ==> hit.bullets[i] in bullets)
      && (forall i :: 0 <= i < |bullets| && !HitsAny(bullets[i], aliens) ==> bullets[i] in hit.bullets)
  {
    var hit := GroupCollide(bullets, aliens);
    GroupCollideAliens(bullets, aliens);
    GroupCollideBullets(bullets, aliens);
    GroupCollideShrinks(bullets, aliens);
    GroupCollideApart(bullets, aliens);
    GroupCollideKeepsMisses(bullets, aliens);
    assert forall i :: 0 <= i < |hit.bullets| ==> hit.bullets[i] in multiset(bullets);
  }

  /** `_check_bullet_alien_collisions`: resolve the collisions, and when no
      alien is left, destroy the remaining bullets and lay out a new fleet. */
  function CheckCollisions(s: Settings, w: World): (r: World)
    requires s.WellFormed()
    ensures Unhit(w.bullets, w.aliens) != [] ==>
      && r.aliens == Unhit(w.bullets, w.aliens)
      && r.bullets == KeptPrefix(w.bullets, w.aliens, |w.bullets|)
    ensures Unhit(w.bullets, w.aliens) == [] ==> r.aliens == NewFleet(s) && r.bullets == []
    ensures Unhit(w.bullets, w.aliens) != [] ==>
      forall i :: 0 <= i < |w.bullets| && !HitsAny(w.bullets[i], w.aliens) ==> w.bullets[i] in r.bullets
    ensures Apart(r.bullets, r.aliens)
    ensures forall i :: 0 <= i < |r.bullets| ==> r.bullets[i] in w.bullets
    ensures |r.bullets| <= |w.bullets|
    ensures |r.aliens| <= |w.aliens| || (r.aliens == NewFleet(s) && r.bullets == [])
    ensures r.(aliens := w.aliens, bullets := w.bullets) == w
  {
    var hit := GroupCollide(w.bullets, w.aliens);
    GroupCollideFacts(w.bullets, w.aliens);
    if hit.aliens == [] then w.(bullets := [], aliens := NewFleet(s))
    else w.(bullets := hit.bullets, aliens := hit.aliens)
  }

  /** The bullets after one step of `move` that are still on screen: every
      moved bullet whose bottom is below the top of the screen is kept, and
      only those. */
  function Advance(move: Rect -> Rect, bullets: seq<Rect>): (r: seq<Rect>)
    ensures forall i :: 0 <= i < |r| ==> r[i].Bottom() > 0
    ensures forall i :: 0 <= i < |r| ==> exists j :: 0 <= j < |bullets| && r[i] == move(bullets[j])
    ensures forall j :: 0 <= j < |bullets| && move(bullets[j]).Bottom() > 0 ==> move(bullets[j]) in r
    ensures |r| <= |bullets|
  {
    var moved := MoveAll(move, bullets);
    CullKeepsExactlyOnScreen(moved, []);
    assert forall j :: 0 <= j < |bullets| ==> moved[j] == move(bullets[j]);
    assert forall i :: 0 <= i < |Cull(moved)| ==> Cull(moved)[i] in moved;
    Cull(moved)
  }

  /** `_update_bullets`: move every bullet, cull those that left the top of
      the screen, then resolve collisions among the rest. Surviving bullets
      are moved bullets still on screen and never outnumber the bullets
      before the step, so the cap on live bullets is kept. */
  function UpdateBullets(s: Settings, move: Rect -> Rect, w: World): (r: World)
    requires s.WellFormed()
    ensures var kept := Cull(MoveAll(move, w.bullets));
      && (Unhit(kept, w.aliens) != [] ==>
            && r.aliens == Unhit(kept, w.aliens)
            && r.bullets == KeptPrefix(kept, w.aliens, |kept|)
            && forall i :: 0 <= i < |kept| && !HitsAny(kept[i], w.aliens) ==> kept[i] in r.bullets)
      && (Unhit(kept, w.aliens) == [] ==> r.aliens == NewFleet(s) && r.bullets == [])
    ensures forall i :: 0 <= i < |r.bullets| ==>
      r.bullets[i].Bottom() > 0 && exists j :: 0 <= j < |w.bullets| && r.bullets[i] == move(w.bullets[j])
    ensures |r.bullets| <= |w.bullets|
    ensures Apart(r.bullets, r.aliens)
    ensures |r.aliens| <= |w.aliens| || (r.aliens == NewFleet(s) && r.bullets == [])
    ensures r.(aliens := w.aliens, bullets := w.bullets) == w
  {
    var kept := Advance(move, w.bullets);
    CheckCollisions(s, w.(bullets := kept))
  }
}
