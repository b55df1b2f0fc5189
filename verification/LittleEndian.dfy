/** Fixed-width little-endian integers, the integer encoding of every wire format. */
module LittleEndian {
  import opened Bytes
  import opened Arithmetic

  function Limit(width: nat): (n: nat)
    ensures n >= 1
  {
    if width == 0 then 1 else 256 * Limit(width - 1)
  }

  /** The low `width` bytes of `n`, least significant first. */
  function ToLe(n: nat, width: nat): (bs: Bytes)
    ensures |bs| == width
  {
    if width == 0 then [] else [(n % 256) as byte] + ToLe(n / 256, width - 1)
  }

  function FromLe(bs: Bytes): (n: nat)
    ensures n < Limit(|bs|)
  {
    if bs == [] then 0 else bs[0] as nat + 256 * FromLe(bs[1..])
  }

  /** Writing truncates to the width, as an integer cast does; reading gets the rest back. */
  lemma {:induction false} ReadBack(n: nat, width: nat)
    ensures FromLe(ToLe(n, width)) == n % Limit(width)
  {
    if width > 0 {
      ReadBack(n / 256, width - 1);
      SplitMod(n, Limit(width - 1));
      assert ToLe(n, width)[1..] == ToLe(n / 256, width - 1);
    }
  }

  lemma {:induction false} ReadBackExact(n: nat, width: nat)
    requires n < Limit(width)
    ensures FromLe(ToLe(n, width)) == n
  {
    ReadBack(n, width);
    Divided(n, Limit(width), 0, n);
  }

  /** The order of the bytes: the one at place `i` counts 256 to the power `i`. */
  lemma {:induction false} ByteAt(n: nat, width: nat, i: nat)
    requires i < width
    ensures ToLe(n, width)[i] as nat == n / Limit(i) % 256
  {
    if i > 0 {
      ByteAt(n / 256, width - 1, i - 1);
      SplitMod(n, Limit(i - 1));
    }
  }

  /** Two and four bytes, spelled out. */
  lemma ReadsAs(bs: Bytes)
    ensures |bs| == 2 ==> FromLe(bs) == bs[0] as nat + 0x100 * bs[1] as nat
    ensures |bs| == 4 ==> FromLe(bs) == bs[0] as nat + 0x100 * bs[1] as nat + 0x1_0000 * bs[2] as nat + 0x100_0000 * bs[3] as nat
  {
    if |bs| == 2 {
      assert bs[1..][1..] == [];
    } else if |bs| == 4 {
      assert FromLe(bs[1..]) == bs[1] as nat + 256 * FromLe(bs[2..]) && bs[1..][1..] == bs[2..];
      assert FromLe(bs[2..]) == bs[2] as nat + 256 * FromLe(bs[3..]) && bs[2..][1..] == bs[3..];
      assert FromLe(bs[3..]) == bs[3] as nat + 256 * FromLe([]) && bs[3..][1..] == [];
    }
  }

  /** Every byte string of the width is the encoding of the number it reads as. */
  lemma {:induction false} WriteBack(bs: Bytes)
    ensures ToLe(FromLe(bs), |bs|) == bs
  {
    if bs != [] {
      WriteBack(bs[1..]);
      var n := FromLe(bs);
      assert n % 256 == bs[0] as nat && n / 256 == FromLe(bs[1..]);
    }
  }
}
