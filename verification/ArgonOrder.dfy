/** The order of the fill loop of Argon2: every place of every pass once, by pass, slice, lane and block. */
module ArgonOrder {
  import opened Powers
  import opened Words
  import opened Argon

  ghost predicate Before(p: Place, q: Place) {
    p.pass < q.pass || (p.pass == q.pass &&
      (p.slice < q.slice || (p.slice == q.slice &&
        (p.lane < q.lane || (p.lane == q.lane && p.block < q.block)))))
  }

  ghost predicate InOrder(places: seq<Place>) {
    forall i, j | 0 <= i < j < |places| :: Before(places[i], places[j])
  }

  /** The blocks after the given places have been filled one after the other. */
  ghost function Filled(c: Config, bs: seq<Block>, places: seq<Place>): (r: seq<Block>)
    requires c.Ok() && |bs| == c.lanes * c.LaneSize() && forall p | p in places :: p.In(c)
    ensures |r| == |bs|
  {
    if places == [] then bs
    else
      var m := |places| - 1;
      FillBlock(c, Filled(c, bs, places[..m]), places[m])
  }

  lemma OrderAppend(a: seq<Place>, b: seq<Place>)
    requires InOrder(a) && InOrder(b) && forall p, q | p in a && q in b :: Before(p, q)
    ensures InOrder(a + b) && forall p :: p in a + b <==> p in a || p in b
  {
    var s := a + b;
    forall i, j | 0 <= i < j < |s| ensures Before(s[i], s[j]) {
      assert i < |a| <= j ==> s[i] in a && s[j] in b;
      assert |a| <= i ==> s[i] == b[i - |a|] && s[j] == b[j - |a|];
      assert j < |a| ==> s[i] == a[i] && s[j] == a[j];
    }
  }

  lemma {:induction false} FilledAppend(c: Config, bs: seq<Block>, a: seq<Place>, b: seq<Place>)
    requires c.Ok() && |bs| == c.lanes * c.LaneSize() && (forall p | p in a :: p.In(c)) && (forall p | p in b :: p.In(c))
    ensures (forall p | p in a + b :: p.In(c)) && Filled(c, bs, a + b) == Filled(c, Filled(c, bs, a), b)
    decreases |b|
  {
    hide FillBlock;
    if b == [] {
      assert a + b == a;
    } else {
      var m := |b| - 1;
      assert (a + b)[..|a| + m] == a + b[..m];
      FilledAppend(c, bs, a, b[..m]);
    }
  }

  /** A segment goes block by block. */
  lemma {:induction false} SegmentOrder(c: Config, bs: seq<Block>, pass: nat, slice: nat, lane: nat, n: nat) returns (places: seq<Place>)
    requires c.Ok() && |bs| == c.lanes * c.LaneSize() && slice < 4 && lane < c.lanes && n <= c.segment
    ensures InOrder(places)
    ensures forall p :: p in places <==> p.In(c) && p.pass == pass && p.slice == slice && p.lane == lane && p.block < n
    ensures Filled(c, bs, places) == FillSegment(c, bs, pass, slice, lane, n)
    decreases n
  {
    hide FillBlock;
    if n <= Offset(pass, slice) {
      places := [];
    } else {
      var front := SegmentOrder(c, bs, pass, slice, lane, n - 1);
      var p := Place(pass, slice, lane, n - 1);
      OrderAppend(front, [p]);
      places := front + [p];
      assert places[..|front|] == front;
    }
  }

  /** A slice goes lane by lane. */
  lemma {:induction false} SliceOrder(c: Config, bs: seq<Block>, pass: nat, slice: nat, k: nat) returns (places: seq<Place>)
    requires c.Ok() && |bs| == c.lanes * c.LaneSize() && slice < 4 && k <= c.lanes
    ensures InOrder(places)
    ensures forall p :: p in places <==> p.In(c) && p.pass == pass && p.slice == slice && p.lane < k
    ensures Filled(c, bs, places) == FillSlice(c, bs, pass, slice, Lanes(k))
  {
    hide FillBlock, FillSegment;
    if k == 0 {
      places := [];
    } else {
      LanesSnoc(k - 1);
      var front := SliceOrder(c, bs, pass, slice, k - 1);
      var back := SegmentOrder(c, Filled(c, bs, front), pass, slice, k - 1, c.segment);
      OrderAppend(front, back);
      FilledAppend(c, bs, front, back);
      places := front + back;
    }
  }

  lemma {:induction false} PassOrder(c: Config, bs: seq<Block>, pass: nat, n: nat) returns (places: seq<Place>)
    requires c.Ok() && |bs| == c.lanes * c.LaneSize() && n <= 4
    ensures InOrder(places)
    ensures forall p :: p in places <==> p.In(c) && p.pass == pass && p.slice < n
    ensures Filled(c, bs, places) == FillPass(c, bs, pass, n)
  {
    hide FillBlock, FillSlice;
    if n == 0 {
      places := [];
    } else {
      var front := PassOrder(c, bs, pass, n - 1);
      var back := SliceOrder(c, Filled(c, bs, front), pass, n - 1, c.lanes);
      OrderAppend(front, back);
      FilledAppend(c, bs, front, back);
      places := front + back;
    }
  }

  /** The whole fill loop: all places of all passes, each once, in order. */
  lemma {:induction false} FillOrder(c: Config, bs: seq<Block>, passes: nat) returns (places: seq<Place>)
    requires c.Ok() && |bs| == c.lanes * c.LaneSize()
    ensures InOrder(places)
    ensures forall p :: p in places <==> p.In(c) && p.pass < passes
    ensures Filled(c, bs, places) == FillAll(c, bs, passes)
  {
    hide FillBlock, FillPass;
    if passes == 0 {
      places := [];
    } else {
      var front := FillOrder(c, bs, passes - 1);
      var back := PassOrder(c, Filled(c, bs, front), passes - 1, 4);
      OrderAppend(front, back);
      FilledAppend(c, bs, front, back);
      places := front + back;
    }
  }
}
