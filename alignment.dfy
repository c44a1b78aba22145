/** The two rounding helpers the linker places sections and segments with,
    `align_by_constraint` and `align_to_offset_by_constraint`. Their bodies
    are in crates/linker/src/lib.rs, which is not part of this model; they
    are written here as the rounding the linker relies on. */
module Alignment {
  import opened LittleEndian

  /** `offset` rounded up to a multiple of `c`. */
  function AlignByConstraint(offset: nat, c: nat): (r: nat)
    requires c > 0
    ensures r % c == 0
    ensures offset <= r < offset + c
  {
    if offset % c == 0 then offset
    else
      var q := offset / c;
      assert offset + c - offset % c == c * (q + 1) by {
        assert offset == c * q + offset % c;
      }
      DivModUnique(offset + c - offset % c, c, q + 1, 0);
      offset + c - offset % c
  }

  /** The first position at or after `current` that is congruent to
      `target` modulo `c`, so that a segment's file offset and address agree
      modulo the page alignment. */
  function AlignToOffsetByConstraint(current: nat, target: nat, c: nat): (r: nat)
    requires c > 0
    ensures r % c == target % c
    ensures current <= r < current + c
  {
    var tr, cr := target % c, current % c;
    var q := current / c;
    assert current == c * q + cr;
    if tr > cr then
      DivModUnique(current + (tr - cr), c, q, tr);
      current + (tr - cr)
    else if tr < cr then
      assert current + (tr + c - cr) == c * (q + 1) + tr;
      DivModUnique(current + (tr + c - cr), c, q + 1, tr);
      current + (tr + c - cr)
    else current
  }

  /** Two numbers congruent modulo `c` and less than `c` apart are equal. */
  lemma {:induction false} CongruentClose(x: nat, y: nat, c: nat)
    requires c > 0 && x % c == y % c && x <= y < x + c
    ensures x == y
  {
    var q, p := x / c, y / c;
    assert x == c * q + x % c;
    assert y == c * p + y % c;
    assert c * (p - q) == y - x;
    MulOutsideUnit(c, p - q);
  }

  /** Both helpers round up by the least amount: no smaller position at or
      after the start satisfies the constraint. */
  lemma {:induction false} AlignIsLeast(current: nat, target: nat, c: nat, x: nat)
    requires c > 0 && current <= x && x % c == target % c
    ensures AlignToOffsetByConstraint(current, target, c) <= x
    ensures x % c == 0 ==> AlignByConstraint(current, c) <= x
  {
    var r := AlignToOffsetByConstraint(current, target, c);
    if x < r {
      CongruentClose(x, r, c);
    }
    if x % c == 0 {
      var a := AlignByConstraint(current, c);
      if x < a {
        CongruentClose(x, a, c);
      }
    }
  }
}
