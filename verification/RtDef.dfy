/** The definitions of rtdef.h that several components use. */
module RtDef {
  const WORD := 0x1_0000_0000    // rt_size_t, rt_ubase_t and rt_tick_t are 32 bits wide
  const ALIGN := 4               // RT_ALIGN_SIZE
  const NULL := -1               // RT_NULL, outside every range of offsets

  /** RT_ALIGN on a 32-bit size, wrap-around included. */
  function AlignUp(size: nat): (r: nat)
    ensures r < WORD
  {
    (size + ALIGN - 1) % WORD / ALIGN * ALIGN
  }

  /** Rounding up covers the size exactly when it does not leave 32 bits. */
  lemma AlignUpCovers(size: nat)
    requires size < WORD
    ensures AlignUp(size) >= size <==> size <= WORD - ALIGN
    ensures AlignUp(size) % ALIGN == 0 && AlignUp(size) < size + ALIGN
  {
    if size <= WORD - ALIGN {
      assert (size + ALIGN - 1) % WORD == size + ALIGN - 1;
    } else {
      assert (size + ALIGN - 1) % WORD == size + ALIGN - 1 - WORD;
    }
  }

  lemma AlignUpUnit(size: nat)
    ensures AlignUp(size) == 0 || AlignUp(size) >= ALIGN
  {
  }

  lemma AlignUpAgain(size: nat)
    ensures AlignUp(AlignUp(size)) == AlignUp(size)
  {
    var q := (size + ALIGN - 1) % WORD / ALIGN;
    assert (4 * q + 3) / 4 == q;
  }

  lemma AlignUpSame(size: nat)
    requires size < WORD && size % ALIGN == 0
    ensures AlignUp(size) == size
  {
    assert size <= WORD - ALIGN;
    assert (size + ALIGN - 1) % WORD == size + ALIGN - 1;
  }
}
