/** Damage rectangles of the overlay: the Win32 RECT operations and the merge loop that
    Pipe::checkMessage runs for every BLIT message. */
module Rects {
  import opened Bytes

  datatype Rect = Rect(left: int, top: int, right: int, bottom: int) {
    predicate Empty() {
      left >= right || top >= bottom
    }

    /** The pixel (x, y) belongs to this rectangle: right and bottom are exclusive. */
    predicate Has(x: int, y: int) {
      left <= x < right && top <= y < bottom
    }
  }

  function Intersection(a: Rect, b: Rect): Rect {
    Rect(Max(a.left, b.left), Max(a.top, b.top), Min(a.right, b.right), Min(a.bottom, b.bottom))
  }

  /** The Boolean result of IntersectRect. */
  predicate Meets(a: Rect, b: Rect) {
    !Intersection(a, b).Empty()
  }

  /** UnionRect: the smallest rectangle holding both, where an empty rectangle counts for nothing. */
  function Union(a: Rect, b: Rect): Rect {
    if a.Empty() && b.Empty() then Rect(0, 0, 0, 0)
    else if a.Empty() then b
    else if b.Empty() then a
    else Rect(Min(a.left, b.left), Min(a.top, b.top), Max(a.right, b.right), Max(a.bottom, b.bottom))
  }

  predicate Inside(a: Rect, b: Rect) {
    b.left <= a.left && a.right <= b.right && b.top <= a.top && a.bottom <= b.bottom
  }

  /** Some single member of fs holds all of r. */
  ghost predicate Hosted(r: Rect, fs: seq<Rect>) {
    exists f :: f in fs && Inside(r, f)
  }

  /** Every non-empty member of rs fits into a single member of fs. */
  ghost predicate AllHosted(rs: seq<Rect>, fs: seq<Rect>) {
    forall r :: r in rs && !r.Empty() ==> Hosted(r, fs)
  }

  ghost predicate Apart(fs: seq<Rect>) {
    forall i, j :: 0 <= i < j < |fs| ==> !Meets(fs[i], fs[j])
  }

  /** The first rectangle of the list that meets r, or the length of the list. */
  function FirstHit(blits: seq<Rect>, r: Rect): (i: nat)
    ensures i <= |blits|
    ensures i < |blits| ==> Meets(r, blits[i])
    ensures forall j :: 0 <= j < i ==> !Meets(r, blits[j])
  {
    if blits == [] || Meets(r, blits[0]) then 0 else 1 + FirstHit(blits[1..], r)
  }

  function Without(blits: seq<Rect>, i: nat): seq<Rect>
    requires i < |blits|
  {
    blits[..i] + blits[i + 1..]
  }

  /** What one BLIT message does to the list: absorb the first hit, start over, and append. */
  function MergeOne(blits: seq<Rect>, r: Rect): seq<Rect>
    decreases |blits|
  {
    var i := FirstHit(blits, r);
    if i == |blits| then blits + [r] else MergeOne(Without(blits, i), Union(r, blits[i]))
  }

  /** The list after a sequence of BLIT messages. */
  function MergeAll(requests: seq<Rect>): seq<Rect> {
    if requests == [] then []
    else MergeOne(MergeAll(requests[..|requests| - 1]), requests[|requests| - 1])
  }

  /** The loop as written: erase from the list, grow r, and restart the iterator after each erase. */
  method MergeBlit(blits: seq<Rect>, request: Rect) returns (boxes: seq<Rect>)
    ensures boxes == MergeOne(blits, request)
  {
    boxes := blits;
    var r := request;
    var i := 0;
    while i != |boxes|
      invariant 0 <= i <= |boxes|
      invariant forall j :: 0 <= j < i ==> !Meets(r, boxes[j])
      invariant MergeOne(boxes, r) == MergeOne(blits, request)
      decreases |boxes|, |boxes| - i
    {
      if Meets(r, boxes[i]) {
        assert FirstHit(boxes, r) == i;
        r, boxes := Union(r, boxes[i]), Without(boxes, i);
        i := 0;
      } else {
        i := i + 1;
      }
    }
    assert FirstHit(boxes, r) == |boxes|;
    boxes := boxes + [r];
  }

  /** IntersectRect reports an overlap exactly when the rectangles share a pixel. */
  lemma MeetsIffCommonPixel(a: Rect, b: Rect)
    ensures Meets(a, b) <==> exists x, y :: a.Has(x, y) && b.Has(x, y)
  {
    if Meets(a, b) {
      var c := Intersection(a, b);
      assert a.Has(c.left, c.top) && b.Has(c.left, c.top);
    }
  }

  /** UnionRect is the least rectangle holding both; one that is empty counts for nothing. */
  lemma UnionIsLeast(a: Rect, b: Rect, f: Rect)
    ensures !a.Empty() && !b.Empty() ==> (Inside(Union(a, b), f) <==> Inside(a, f) && Inside(b, f))
    ensures a.Empty() && !b.Empty() ==> Union(a, b) == Union(b, a) == b
    ensures a.Empty() && b.Empty() ==> Union(a, b) == Rect(0, 0, 0, 0)
  {
  }

  lemma {:induction false} MergeOneApart(blits: seq<Rect>, r: Rect)
    requires Apart(blits)
    ensures Apart(MergeOne(blits, r))
    decreases |blits|
  {
    var i := FirstHit(blits, r);
    if i < |blits| {
      MergeOneApart(Without(blits, i), Union(r, blits[i]));
    }
  }

  lemma HostedTrans(a: Rect, b: Rect, fs: seq<Rect>)
    requires Inside(a, b) && Hosted(b, fs)
    ensures Hosted(a, fs)
  {
    var f :| f in fs && Inside(b, f);
    assert f in fs && Inside(a, f);
  }

  lemma {:induction false} MergeOneHosts(blits: seq<Rect>, r: Rect)
    ensures Hosted(r, MergeOne(blits, r))
    ensures forall b :: b in blits ==> Hosted(b, MergeOne(blits, r))
    decreases |blits|
  {
    var i := FirstHit(blits, r);
    var out := MergeOne(blits, r);
    if i == |blits| {
      assert r in out && Inside(r, r);
      forall b | b in blits ensures Hosted(b, out) {
        assert b in out && Inside(b, b);
      }
    } else {
      var rest, u := Without(blits, i), Union(r, blits[i]);
      MergeOneHosts(rest, u);
      HostedTrans(r, u, out);
      forall b | b in blits ensures Hosted(b, out) {
        if b == blits[i] {
          HostedTrans(b, u, out);
        } else {
          assert b in rest;
        }
      }
    }
  }

  lemma UnionIsHull(a: Rect, b: Rect, f: Rect)
    requires Meets(a, b)
    ensures !a.Empty() && !b.Empty() && !Union(a, b).Empty()
    ensures Inside(a, f) && Inside(b, f) <==> Inside(Union(a, b), f)
  {
  }

  /** Two rectangles that meet can only lie in members that meet. */
  lemma HostsMeet(a: Rect, b: Rect, f: Rect, g: Rect)
    requires Meets(a, b) && Inside(a, f) && Inside(b, g)
    ensures Meets(f, g) && Meets(g, f)
  {
  }

  lemma {:induction false} MergeOneLeast(blits: seq<Rect>, r: Rect, fs: seq<Rect>)
    requires Apart(fs) && AllHosted(blits + [r], fs)
    ensures AllHosted(MergeOne(blits, r), fs)
    decreases |blits|
  {
    hide Meets, Union, Inside, Rect.Empty;
    var i := FirstHit(blits, r);
    if i < |blits| {
      var rest, u := Without(blits, i), Union(r, blits[i]);
      UnionIsHull(r, blits[i], r);
      assert r in blits + [r] && blits[i] in blits + [r];
      var p :| 0 <= p < |fs| && Inside(r, fs[p]);
      var q :| 0 <= q < |fs| && Inside(blits[i], fs[q]);
      HostsMeet(r, blits[i], fs[p], fs[q]);
      assert p == q;
      UnionIsHull(r, blits[i], fs[p]);
      assert forall x :: x in rest + [u] ==> x in blits + [r] || x == u;
      MergeOneLeast(rest, u, fs);
    }
  }

  lemma {:induction false} MergeOneEmpties(blits: seq<Rect>, r: Rect, e: Rect)
    requires e.Empty()
    ensures multiset(MergeOne(blits, r))[e] == multiset(blits + [r])[e]
    decreases |blits|
  {
    hide Meets, Union, Inside, Rect.Empty;
    var i := FirstHit(blits, r);
    if i < |blits| {
      var rest, u := Without(blits, i), Union(r, blits[i]);
      UnionIsHull(r, blits[i], r);
      assert e != r && e != blits[i] && e != u;
      MergeOneEmpties(rest, u, e);
      WithoutCount(blits, i);
    }
  }

  lemma WithoutCount(blits: seq<Rect>, i: nat)
    requires i < |blits|
    ensures multiset(blits) == multiset(Without(blits, i)) + multiset{blits[i]}
  {
    assert blits == blits[..i] + [blits[i]] + blits[i + 1..];
  }

  /** After any sequence of requests the boxes are pairwise non-overlapping, and every request lies
      in one of them. */
  lemma {:induction false} MergeAllSound(requests: seq<Rect>)
    ensures Apart(MergeAll(requests))
    ensures forall r :: r in requests ==> Hosted(r, MergeAll(requests))
  {
    if requests != [] {
      var n := |requests| - 1;
      var before, last := requests[..n], requests[n];
      MergeAllSound(before);
      MergeOneApart(MergeAll(before), last);
      MergeOneHosts(MergeAll(before), last);
      forall r | r in requests ensures Hosted(r, MergeAll(requests)) {
        if r in before {
          var b :| b in MergeAll(before) && Inside(r, b);
          HostedTrans(r, b, MergeAll(requests));
        }
      }
    }
  }

  /** The boxes are the least such family: any non-overlapping family that holds every request in
      a single member holds every box in a single member. */
  lemma {:induction false} MergeAllLeast(requests: seq<Rect>, fs: seq<Rect>)
    requires Apart(fs) && AllHosted(requests, fs)
    ensures AllHosted(MergeAll(requests), fs)
  {
    if requests != [] {
      var n := |requests| - 1;
      assert forall r :: r in requests[..n] ==> r in requests;
      MergeAllLeast(requests[..n], fs);
      MergeOneLeast(MergeAll(requests[..n]), requests[n], fs);
    }
  }

  lemma {:induction false} MergeAllEmpties(requests: seq<Rect>, e: Rect)
    requires e.Empty()
    ensures multiset(MergeAll(requests))[e] == multiset(requests)[e]
  {
    if requests != [] {
      var n := |requests| - 1;
      MergeAllEmpties(requests[..n], e);
      MergeOneEmpties(MergeAll(requests[..n]), requests[n], e);
      assert requests == requests[..n] + [requests[n]];
    }
  }

  /** A non-empty box occurs at most once in a non-overlapping list. */
  lemma ApartCount(fs: seq<Rect>, m: Rect)
    requires Apart(fs) && !m.Empty()
    ensures multiset(fs)[m] == if m in fs then 1 else 0
  {
    if m in fs {
      var i :| 0 <= i < |fs| && fs[i] == m;
      assert fs == fs[..i] + [m] + fs[i + 1..];
      assert m !in fs[..i] && m !in fs[i + 1..];
    }
  }

  /** Two families that each hold the other's members have the same non-empty members. */
  lemma MutualHostsEqual(ms: seq<Rect>, ns: seq<Rect>, m: Rect)
    requires Apart(ms) && AllHosted(ms, ns) && AllHosted(ns, ms)
    requires m in ms && !m.Empty()
    ensures m in ns
  {
    assert Hosted(m, ns);
    var n :| n in ns && Inside(m, n);
    assert Hosted(n, ms);
    var k :| 0 <= k < |ms| && Inside(n, ms[k]);
    var i :| 0 <= i < |ms| && ms[i] == m;
    InsideMeets(m, n, ms[k]);
    assert i == k;
  }

  lemma InsideMeets(a: Rect, b: Rect, c: Rect)
    requires !a.Empty() && Inside(a, b) && Inside(b, c)
    ensures Meets(a, c) && Meets(c, a)
    ensures a == c ==> a == b
  {
  }

  /** The order in which the requests arrive does not matter: every permutation leaves the same
      boxes, empty ones included. */
  lemma OrderIndependent(p: seq<Rect>, q: seq<Rect>)
    requires multiset(p) == multiset(q)
    ensures multiset(MergeAll(p)) == multiset(MergeAll(q))
  {
    var ms, ns := MergeAll(p), MergeAll(q);
    assert forall r :: (r in p <==> r in multiset(p)) && (r in q <==> r in multiset(q));
    MergeAllSound(p);
    MergeAllSound(q);
    MergeAllLeast(p, ns);
    MergeAllLeast(q, ms);
    forall m: Rect ensures multiset(ms)[m] == multiset(ns)[m] {
      if m.Empty() {
        MergeAllEmpties(p, m);
        MergeAllEmpties(q, m);
      } else {
        ApartCount(ms, m);
        ApartCount(ns, m);
        if m in ms { MutualHostsEqual(ms, ns, m); }
        if m in ns { MutualHostsEqual(ns, ms, m); }
      }
    }
  }

  /** Every pixel of every request is a pixel of a box; and boxes stay on any screen that holds the
      requests. */
  lemma BoxesCoverAndStayOnScreen(requests: seq<Rect>, screen: Rect)
    ensures forall r, x, y :: r in requests && r.Has(x, y) ==>
              exists b :: b in MergeAll(requests) && b.Has(x, y)
    ensures (forall r :: r in requests && !r.Empty() ==> Inside(r, screen)) <==>
            (forall b :: b in MergeAll(requests) && !b.Empty() ==> Inside(b, screen))
  {
    MergeAllSound(requests);
    forall r, x, y | r in requests && r.Has(x, y)
      ensures exists b :: b in MergeAll(requests) && b.Has(x, y)
    {
      var b :| b in MergeAll(requests) && Inside(r, b);
      assert b.Has(x, y);
    }
    if forall r :: r in requests && !r.Empty() ==> Inside(r, screen) {
      assert screen in [screen];
      MergeAllLeast(requests, [screen]);
    }
    if forall b :: b in MergeAll(requests) && !b.Empty() ==> Inside(b, screen) {
      forall r | r in requests && !r.Empty() ensures Inside(r, screen) {
        var b :| b in MergeAll(requests) && Inside(r, b);
        assert !b.Empty();
      }
    }
  }
}
