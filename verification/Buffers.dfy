/** Buffers that are written row by row, byte by byte or bit by bit. */
module Buffers {
  import opened Bits

  /** Where row y starts: pitch * y. */
  function Pos(pitch: nat, y: nat): nat {
    if y == 0 then 0 else Pos(pitch, y - 1) + pitch
  }

  lemma {:induction false} PosIs(pitch: nat, y: nat)
    ensures Pos(pitch, y) == pitch * y
  {
    if y > 0 {
      PosIs(pitch, y - 1);
      MulSum(y - 1, 1, pitch);
    }
  }

  lemma {:induction false} RowFits(pitch: nat, y: nat, h: nat)
    requires y < h
    ensures Pos(pitch, y) + pitch == Pos(pitch, y + 1) <= Pos(pitch, h)
  {
    if y + 1 < h { RowFits(pitch, y, h - 1); }
  }

  lemma SliceInSlice<T>(s: seq<T>, a: nat, n: nat, o: nat, m: nat)
    requires o + m <= n && a + n <= |s|
    ensures s[a..a + n][o..o + m] == s[a + o..a + o + m]
  {
    var x, y := s[a..a + n][o..o + m], s[a + o..a + o + m];
    assert |x| == |y| && forall i | 0 <= i < m :: x[i] == y[i];
  }

  // ---------------------------------------------------------------- writing over a buffer

  /** The buffer was changed from position r on, where it now holds u. */
  ghost predicate Placed<T>(now: seq<T>, was: seq<T>, r: nat, u: seq<T>) {
    r + |u| <= |was| && now == was[..r] + u + was[r + |u|..]
  }

  lemma PlacedStart<T>(was: seq<T>, r: nat)
    requires r <= |was|
    ensures Placed(was, was, r, [])
  {
  }

  lemma PlacedStep<T>(now: seq<T>, was: seq<T>, r: nat, u: seq<T>, x: T)
    requires Placed(now, was, r, u) && r + |u| < |was|
    ensures Placed(now[r + |u| := x], was, r, u + [x])
  {
  }

  lemma PlacedAt<T>(now: seq<T>, was: seq<T>, r: nat, u: seq<T>)
    requires Placed(now, was, r, u)
    ensures r + |u| <= |now| == |was| && now[r..r + |u|] == u
    ensures forall i | 0 <= i < |u| :: now[r + i] == u[i]
    ensures forall i | 0 <= i < r || r + |u| <= i < |was| :: now[i] == was[i]
  {
  }

  lemma PlacedMore<T>(now: seq<T>, mid: seq<T>, was: seq<T>, r: nat, u: seq<T>, v: seq<T>)
    requires Placed(mid, was, r, u) && Placed(now, mid, r + |u|, v)
    ensures Placed(now, was, r, u + v)
  {
  }
}
