/** Constant tables of 256 entries, in rows of sixteen. */
module Tables {

  /** Entry `l` of a row. */
  function Pick<T>(l: bv8, a0: T, a1: T, a2: T, a3: T, a4: T, a5: T, a6: T, a7: T,
                a8: T, a9: T, a10: T, a11: T, a12: T, a13: T, a14: T, a15: T): T {
    if l & 8 == 0 then
      if l & 4 == 0 then
        if l & 2 == 0 then if l & 1 == 0 then a0 else a1 else if l & 1 == 0 then a2 else a3
      else if l & 2 == 0 then if l & 1 == 0 then a4 else a5 else if l & 1 == 0 then a6 else a7
    else
      if l & 4 == 0 then
        if l & 2 == 0 then if l & 1 == 0 then a8 else a9 else if l & 1 == 0 then a10 else a11
      else if l & 2 == 0 then if l & 1 == 0 then a12 else a13 else if l & 1 == 0 then a14 else a15
  }

  lemma PickRight<T>(h: bv8, x: T, a0: T, a1: T, a2: T, a3: T, a4: T, a5: T, a6: T, a7: T,
                  a8: T, a9: T, a10: T, a11: T, a12: T, a13: T, a14: T, a15: T)
    requires h < 16
    requires (h == 0 ==> a0 == x) && (h == 1 ==> a1 == x) && (h == 2 ==> a2 == x) && (h == 3 ==> a3 == x)
    requires (h == 4 ==> a4 == x) && (h == 5 ==> a5 == x) && (h == 6 ==> a6 == x) && (h == 7 ==> a7 == x)
    requires (h == 8 ==> a8 == x) && (h == 9 ==> a9 == x) && (h == 10 ==> a10 == x) && (h == 11 ==> a11 == x)
    requires (h == 12 ==> a12 == x) && (h == 13 ==> a13 == x) && (h == 14 ==> a14 == x) && (h == 15 ==> a15 == x)
    ensures Pick(h, a0, a1, a2, a3, a4, a5, a6, a7, a8, a9, a10, a11, a12, a13, a14, a15) == x
  {
  }
}
