/**
 Byte tables, written sixteen entries a row.
 */
module Tables {
  /** The entry at offset k of a table row. */
  function Pick(k: bv8, v0: bv8, v1: bv8, v2: bv8, v3: bv8, v4: bv8, v5: bv8, v6: bv8, v7: bv8,
                v8: bv8, v9: bv8, v10: bv8, v11: bv8, v12: bv8, v13: bv8, v14: bv8, v15: bv8): bv8 {
    if k < 8 then
      if k < 4 then
        if k < 2 then (if k == 0 then v0 else v1) else if k == 2 then v2 else v3
      else if k < 6 then (if k == 4 then v4 else v5) else if k == 6 then v6 else v7
    else if k < 12 then
      if k < 10 then (if k == 8 then v8 else v9) else if k == 10 then v10 else v11
    else if k < 14 then (if k == 12 then v12 else v13) else if k == 14 then v14 else v15
  }
}

/**
 The byte of a number. A cast from int to bv8 is not reasoned about well, so it is built four bits at a time.
 */
module ByteNumbers {
  function NibbleOf(d: nat): (r: bv8)
    requires d < 16
    ensures r as nat == d
  {
    if d < 8 then
      if d < 4 then
        if d < 2 then (if d == 0 then 0 else 1) else if d == 2 then 2 else 3
      else if d < 6 then (if d == 4 then 4 else 5) else if d == 6 then 6 else 7
    else if d < 12 then
      if d < 10 then (if d == 8 then 8 else 9) else if d == 10 then 10 else 11
    else if d < 14 then (if d == 12 then 12 else 13) else if d == 14 then 14 else 15
  }

  /** The byte of value n. */
  function ByteOf(n: nat): (b: bv8)
    requires n < 256
    ensures b as nat == n
  {
    Join(NibbleOf(n / 16), NibbleOf(n % 16))
  }

  function Join(x: bv8, y: bv8): (b: bv8)
    requires x as nat < 16 && y as nat < 16
    ensures b as nat == 16 * (x as nat) + y as nat
  {
    (x << 4) | y
  }
}
