/** The two decimal shifts undo each other. */
module NumShift {
  import opened NumKernel
  import opened Num
  import opened NumDecimal

  /** A shift to the right and back gives the same number, limb for limb. */
  method RightThenLeft(n: BcNum, places: nat) returns (m: BcNum)
    requires n.Canon()
    ensures fresh(m) && m.Canon() && m.num == n.num && m.rdx == n.rdx && m.scale == n.scale
    ensures m.mag > 0 ==> m.neg == n.neg
  {
    hide Holds;
    m := new BcNum.Copy(n);
    m.ShiftRight(places);
    m.ShiftLeft(places);
    TenZero(n.mag);
    CanonUnique(m, n);
  }

  /** A shift to the left and back gives the same value, with at least `places` fraction digits. */
  method LeftThenRight(n: BcNum, places: nat) returns (m: BcNum)
    requires n.Canon()
    ensures fresh(m) && m.Canon() && m.scale == Max(n.scale, places) && m.At(m.scale) == n.At(m.scale)
    ensures m.mag > 0 ==> m.neg == n.neg
  {
    hide Holds;
    m := new BcNum.Copy(n);
    m.ShiftLeft(places);
    m.ShiftRight(places);
    TenZero(n.mag);
  }
}
