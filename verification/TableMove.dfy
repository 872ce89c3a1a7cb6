/** `table.move` (`lib_table.c`): copying a range, within one table too. */
module TableMove {
  class Tab<V(==)> {
    var slots: map<int, V>  // nil where absent

    ghost function At(k: int): Slot<V>
      reads this
    {
      if k in slots then Full(slots[k]) else Nil
    }

    /** `self[dst] = from[src]` */
    method Copy(from: Tab<V>, src: int, dst: int)
      modifies this
      ensures forall k :: At(k) == if k == dst then old(from.At(src)) else old(At(k))
    {
      slots := if src in from.slots then slots[dst := from.slots[src]] else slots - {dst};
    }
  }

  datatype Slot<V> = Nil | Full(v: V)

  /** Whatever the two tables and the ranges are, the values arrive that were there before the call: the
      loop runs in the direction in which no slot is overwritten before it has been read. */
  method Move<V(==)>(a1: Tab<V>, f: int, e: int, t: int, a2: Tab<V>)
    modifies a2
    ensures forall k :: a2.At(k) == if t <= k <= t + (e - f) then old(a1.At(k - (t - f))) else old(a2.At(k))
  {
    if e >= f {
      var d := t - f;
      if t > e || t <= f || a2 != a1 {
        var i := f;
        while i <= e
          invariant f <= i <= e + 1
          invariant forall k :: a2.At(k) == if t <= k < i + d then old(a1.At(k - d)) else old(a2.At(k))
        {
          a2.Copy(a1, i, i + d);
          i := i + 1;
        }
      } else {
        var i := e;
        while i >= f
          invariant f - 1 <= i <= e
          invariant forall k :: a2.At(k) == if i + d < k <= e + d then old(a1.At(k - d)) else old(a2.At(k))
        {
          a2.Copy(a1, i, i + d);
          i := i - 1;
        }
      }
    }
  }
}
