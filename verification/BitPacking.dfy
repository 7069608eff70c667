/** WideType and WideConv: packing fixed-width elements into one wide integer and cutting it into
    elements of another width. An ap_uint is its string of bits, lowest bit first; an element is its
    bit pattern. */
module BitPacking {

  type Bits = seq<bool>

  // ---------------------------------------------------------------------------------------------
  // Positions

  lemma Slot(w: nat, i: nat, n: nat)
    requires i < n
    ensures w * (i + 1) == w * i + w
    ensures 0 <= w * i <= w * (i + 1) <= w * n
  {
    MulMonotone(w, i + 1, n);
  }

  lemma MulMonotone(w: nat, a: nat, b: nat)
    requires a <= b
    ensures w * a <= w * b
  {
  }

  // ---------------------------------------------------------------------------------------------
  // Bit strings and vectors of elements

  /** x.range(hi, lo). */
  function Range(x: Bits, hi: int, lo: nat): (r: Bits)
    requires lo <= hi + 1 <= |x|
    ensures |r| == hi + 1 - lo
  {
    x[lo..hi + 1]
  }

  /** x after x.range(hi, lo) = v. */
  function SetRange(x: Bits, hi: int, lo: nat, v: Bits): (r: Bits)
    requires lo <= hi + 1 <= |x| && |v| == hi + 1 - lo
    ensures |r| == |x| && r[..hi + 1] == x[..lo] + v && r[hi + 1..] == x[hi + 1..]
  {
    x[..lo] + v + x[hi + 1..]
  }

  /** Assigning an ap_uint to one of another width: truncated, or extended with zeros. */
  function Resize(b: Bits, n: nat): (r: Bits)
    ensures |r| == n
  {
    if n <= |b| then b[..n] else b + seq(n - |b|, _ => false)
  }

  /** Every element is w bits wide. */
  predicate Uniform(v: seq<Bits>, w: nat) {
    forall i :: 0 <= i < |v| ==> |v[i]| == w
  }

  /** The elements one after another, the first in the lowest bits. */
  function Concat(v: seq<Bits>): Bits {
    if v == [] then [] else Concat(v[..|v| - 1]) + v[|v| - 1]
  }

  lemma {:induction false} ConcatLength(v: seq<Bits>, w: nat)
    requires Uniform(v, w)
    ensures |Concat(v)| == w * |v|
  {
    if v == [] {
    } else {
      ConcatLength(v[..|v| - 1], w);
      Slot(w, |v| - 1, |v|);
    }
  }

  lemma ConcatStep(v: seq<Bits>, i: nat)
    requires i < |v|
    ensures Concat(v[..i + 1]) == Concat(v[..i]) + v[i]
  {
    assert v[..i + 1][..i] == v[..i];
  }

  /** The w bits of element i. */
  function Piece(b: Bits, w: nat, i: nat): (r: Bits)
    requires w * (i + 1) <= |b|
    ensures |r| == w
  {
    Slot(w, i, i + 1);
    b[w * i..w * (i + 1)]
  }

  /** v is b cut into elements of w bits. */
  predicate IsCut(v: seq<Bits>, b: Bits, w: nat) {
    && w * |v| == |b|
    && forall i :: 0 <= i < |v| ==> w * (i + 1) <= |b| && v[i] == Piece(b, w, i)
  }

  /** Cutting and concatenating are inverse to each other. */
  lemma {:induction false} CutIffConcat(v: seq<Bits>, b: Bits, w: nat)
    ensures IsCut(v, b, w) <==> Uniform(v, w) && Concat(v) == b
  {
    if IsCut(v, b, w) {
      ConcatOfCut(v, b, w);
    }
    if Uniform(v, w) && Concat(v) == b {
      CutOfConcat(v, w);
    }
  }

  lemma {:induction false} ConcatOfCut(v: seq<Bits>, b: Bits, w: nat)
    requires IsCut(v, b, w)
    ensures Uniform(v, w) && Concat(v) == b
  {
    if v == [] {
      assert b == [];
    } else {
      var n := |v| - 1;
      Slot(w, n, |v|);
      forall i | 0 <= i < n
        ensures w * (i + 1) <= w * n && v[..n][i] == Piece(b[..w * n], w, i)
      {
        Slot(w, i, n);
        assert b[..w * n][w * i..w * (i + 1)] == b[w * i..w * (i + 1)];
      }
      ConcatOfCut(v[..n], b[..w * n], w);
      assert v[n] == Piece(b, w, n);
      assert b == b[..w * n] + b[w * n..];
    }
  }

  lemma {:induction false} CutOfConcat(v: seq<Bits>, w: nat)
    requires Uniform(v, w)
    ensures IsCut(v, Concat(v), w)
  {
    ConcatLength(v, w);
    if v == [] {
    } else {
      var n, b := |v| - 1, Concat(v);
      Slot(w, n, |v|);
      ConcatLength(v[..n], w);
      CutOfConcat(v[..n], w);
      assert b[..w * n] == Concat(v[..n]);
      forall i | 0 <= i < |v|
        ensures w * (i + 1) <= |b| && v[i] == Piece(b, w, i)
      {
        Slot(w, i, |v|);
        if i < n {
          Slot(w, i, n);
          assert v[..n][i] == Piece(b[..w * n], w, i);
          assert b[..w * n][w * i..w * (i + 1)] == b[w * i..w * (i + 1)];
        }
      }
    }
  }

  /** One more element cut off b, after the elements of v. */
  lemma NextElement(v: seq<Bits>, b: Bits, w: nat, lo: nat, hi: nat)
    requires Uniform(v, w) && lo <= hi <= |b| && hi - lo == w
    requires Concat(v) == b[..lo]
    ensures Uniform(v + [b[lo..hi]], w) && Concat(v + [b[lo..hi]]) == b[..hi]
  {
    assert (v + [b[lo..hi]])[..|v|] == v;
    assert b[..hi] == b[..lo] + b[lo..hi];
  }

  // ---------------------------------------------------------------------------------------------
  // What a bit string is worth

  function Pow2(n: nat): (p: nat)
    ensures p > 0
  {
    if n == 0 then 1 else 2 * Pow2(n - 1)
  }

  function Value(b: Bits): nat {
    if b == [] then 0 else (if b[0] then 1 else 0) + 2 * Value(b[1..])
  }

  lemma {:induction false} ValueOfConcat(a: Bits, b: Bits)
    ensures Value(a + b) == Value(a) + Pow2(|a|) * Value(b)
  {
    if a == [] {
      assert a + b == b;
    } else {
      ValueOfConcat(a[1..], b);
      assert (a + b)[1..] == a[1..] + b;
      Double(Pow2(|a| - 1), Value(b));
    }
  }

  lemma Double(p: nat, v: nat)
    ensures 2 * (p * v) == (2 * p) * v
  {
  }

  lemma {:induction false} ValueInjective(a: Bits, b: Bits)
    requires |a| == |b| && Value(a) == Value(b)
    ensures a == b
  {
    if a == [] {
    } else {
      ValueInjective(a[1..], b[1..]);
      assert a == [a[0]] + a[1..] && b == [b[0]] + b[1..];
    }
  }

  /** v[0] * 2^0 + v[1] * 2^w + v[2] * 2^(2w) + ... */
  function Sum(v: seq<Bits>, w: nat): nat {
    if v == [] then 0 else Sum(v[..|v| - 1], w) + Pow2(w * (|v| - 1)) * Value(v[|v| - 1])
  }

  lemma {:induction false} ConcatIsSum(v: seq<Bits>, w: nat)
    requires Uniform(v, w)
    ensures Value(Concat(v)) == Sum(v, w)
  {
    if v == [] {
    } else {
      var n := |v| - 1;
      ConcatIsSum(v[..n], w);
      ConcatLength(v[..n], w);
      ValueOfConcat(Concat(v[..n]), v[n]);
    }
  }

  // ---------------------------------------------------------------------------------------------
  // WideType

  /** `bits` is t_DataWidth; the length of mVal is t_Width. */
  class WideType {
    const bits: nat
    const mVal: array<Bits>

    ghost predicate Valid()
      reads this, mVal
    {
      Uniform(mVal[..], bits)
    }

    /** Unpacks an integer of t_Width * t_DataWidth bits. */
    constructor FromBits(bits: nat, width: nat, val: Bits)
      requires |val| == bits * width
      ensures Valid() && fresh(mVal) && this.bits == bits
      ensures mVal.Length == width && Concat(mVal[..]) == val
    {
      this.bits := bits;
      mVal := new Bits[width];
      new;
      for i := 0 to width
        invariant bits * i <= |val|
        invariant Uniform(mVal[..i], bits) && Concat(mVal[..i]) == val[..bits * i]
      {
        Slot(bits, i, width);
        NextElement(mVal[..i], val, bits, bits * i, bits * (i + 1));
        mVal[i] := Range(val, bits * (1 + i) - 1, bits * i);
        assert mVal[..i + 1] == mVal[..i] + [mVal[i]];
      }
      assert mVal[..width] == mVal[..];
    }

    /** The conversion to t_TypeInt; `undefined` is what l_fVal holds before anything is assigned. */
    method ToBits(undefined: Bits) returns (fVal: Bits)
      requires Valid() && |undefined| == bits * mVal.Length
      ensures fVal == Concat(mVal[..])
    {
      fVal := undefined;
      for i := 0 to mVal.Length
        invariant |fVal| == bits * mVal.Length && bits * i <= |fVal|
        invariant fVal[..bits * i] == Concat(mVal[..][..i])
      {
        Slot(bits, i, mVal.Length);
        ConcatStep(mVal[..], i);
        fVal := SetRange(fVal, bits * (1 + i) - 1, bits * i, mVal[i]);
      }
      assert mVal[..][..mVal.Length] == mVal[..];
    }
  }

  /** Packing and unpacking, in either order, give back what went in. */
  method PackUnpack(bits: nat, width: nat, val: Bits, x: WideType, undefined: Bits)
      returns (packed: Bits, y: WideType)
    requires |val| == |undefined| == bits * width
    requires x.Valid() && x.bits == bits && x.mVal.Length == width
    ensures packed == val
    ensures y.Valid() && y.mVal[..] == x.mVal[..]
  {
    var unpacked := new WideType.FromBits(bits, width, val);
    packed := unpacked.ToBits(undefined);
    var integer := x.ToBits(undefined);
    ConcatLength(x.mVal[..], bits);
    y := new WideType.FromBits(bits, width, integer);
    CutIffConcat(x.mVal[..], integer, bits);
    CutIffConcat(y.mVal[..], integer, bits);
    assert |x.mVal[..]| == |y.mVal[..]|;
  }

  // ---------------------------------------------------------------------------------------------
  // WideConv

  /** `bs` and `bd` are the element widths, `ws` and `wd` the element counts of source and result. */
  class WideConv {
    const bs: nat
    const ws: nat
    const bd: nat
    const wd: nat
    var lBits: Bits

    ghost predicate Valid()
      reads this
    {
      |lBits| == bs * ws == bd * wd
    }

    constructor (bs: nat, ws: nat, bd: nat, wd: nat, undefined: Bits)
      requires |undefined| == bs * ws == bd * wd
      ensures Valid() && this.bs == bs && this.ws == ws && this.bd == bd && this.wd == wd
    {
      this.bs, this.ws, this.bd, this.wd := bs, ws, bd, wd;
      lBits := undefined;
    }

    method Convert(src: array<Bits>, dst: array<Bits>)
      requires Valid() && src != dst
      requires src.Length == ws && Uniform(src[..], bs) && dst.Length == wd
      modifies `lBits, dst
      ensures Valid() && lBits == Concat(src[..])
      ensures Uniform(dst[..], bd) && Concat(dst[..]) == Concat(src[..])
    {
      for s := 0 to ws
        invariant Valid() && bs * s <= |lBits|
        invariant lBits[..bs * s] == Concat(src[..][..s])
      {
        Slot(bs, s, ws);
        ConcatStep(src[..], s);
        lBits := SetRange(lBits, bs * (s + 1) - 1, bs * s, src[s]);
      }
      assert src[..][..ws] == src[..];
      for d := 0 to wd
        modifies dst
        invariant bd * d <= |lBits|
        invariant Uniform(dst[..d], bd) && Concat(dst[..d]) == lBits[..bd * d]
      {
        Slot(bd, d, wd);
        NextElement(dst[..d], lBits, bd, bd * d, bd * (d + 1));
        dst[d] := Range(lBits, bd * (d + 1) - 1, bd * d);
        assert dst[..d + 1] == dst[..d] + [dst[d]];
      }
      assert dst[..wd] == dst[..];
    }
  }

  /** The relation Convert establishes between its argument and its result. */
  predicate Converts(src: seq<Bits>, bs: nat, dst: seq<Bits>, bd: nat) {
    Uniform(src, bs) && Uniform(dst, bd) && Concat(dst) == Concat(src)
  }

  /** Equivalently, the two vectors are the same number, each in its own radix, even when neither
      element width divides the other. */
  lemma ConvertsIffSameSum(src: seq<Bits>, bs: nat, dst: seq<Bits>, bd: nat)
    requires Uniform(src, bs) && Uniform(dst, bd) && bs * |src| == bd * |dst|
    ensures Converts(src, bs, dst, bd) <==> Sum(src, bs) == Sum(dst, bd)
  {
    ConcatIsSum(src, bs);
    ConcatIsSum(dst, bd);
    ConcatLength(src, bs);
    ConcatLength(dst, bd);
    if Sum(src, bs) == Sum(dst, bd) {
      ValueInjective(Concat(src), Concat(dst));
    }
  }

  /** Converting there and back is the identity, and so is any chain of conversions that returns to
      the first element width. */
  lemma ConversionsCompose(src: seq<Bits>, bs: nat, mid: seq<Bits>, bm: nat, dst: seq<Bits>, bd: nat)
    requires Converts(src, bs, mid, bm) && Converts(mid, bm, dst, bd)
    ensures Converts(src, bs, dst, bd)
    ensures bd == bs && bs > 0 ==> dst == src
  {
    if bd == bs && bs > 0 {
      CutIffConcat(src, Concat(src), bs);
      CutIffConcat(dst, Concat(src), bs);
      SameCount(bs, |src|, |dst|);
    }
  }

  lemma SameCount(w: nat, m: nat, n: nat)
    requires w > 0 && w * m == w * n
    ensures m == n
  {
    assert w * (m - n) == 0;
  }

  /** Convert agrees with packing through one WideType and unpacking through the other. */
  method ConvertThroughWideTypes(conv: WideConv, src: WideType, undefined: Bits)
    returns (direct: WideType, indirect: WideType)
    requires conv.Valid() && src.Valid() && src.bits == conv.bs && src.mVal.Length == conv.ws
    requires |undefined| == conv.bs * conv.ws
    modifies conv`lBits
    ensures direct.Valid() && indirect.Valid()
    ensures Converts(src.mVal[..], conv.bs, direct.mVal[..], conv.bd)
    ensures direct.mVal[..] == indirect.mVal[..]
  {
    direct := new WideType.FromBits(conv.bd, conv.wd, undefined);
    conv.Convert(src.mVal, direct.mVal);
    var integer := src.ToBits(undefined);
    ConcatLength(src.mVal[..], conv.bs);
    indirect := new WideType.FromBits(conv.bd, conv.wd, integer);
    CutIffConcat(direct.mVal[..], integer, conv.bd);
    CutIffConcat(indirect.mVal[..], integer, conv.bd);
    assert |direct.mVal[..]| == |indirect.mVal[..]|;
  }

  // ---------------------------------------------------------------------------------------------
  // convWideVal2Bits and convBits2WideType: entries of t_Bits / t_Width bits

  /** `dataBits` is the element width, `entry` is t_Bits / t_Width. */
  method ConvWideVal2Bits(val: array<Bits>, dataBits: nat, entry: nat, undefined: Bits) returns (res: Bits)
    requires Uniform(val[..], dataBits) && |undefined| == entry * val.Length
    ensures res == Concat(ResizeAll(val[..], entry)) && |res| == entry * val.Length
    ensures forall i :: 0 <= i < val.Length ==> HoldsEntry(res, entry, i, val[i])
  {
    res := undefined;
    for i := 0 to val.Length
      invariant |res| == entry * val.Length && entry * i <= |res|
      invariant res[..entry * i] == Concat(ResizeAll(val[..], entry)[..i])
    {
      Slot(entry, i, val.Length);
      ConcatStep(ResizeAll(val[..], entry), i);
      res := SetRange(res, entry * (i + 1) - 1, entry * i, Resize(val[i], entry));
    }
    assert ResizeAll(val[..], entry)[..val.Length] == ResizeAll(val[..], entry);
    EntriesOf(val[..], entry, res);
    assert forall i :: 0 <= i < val.Length ==> val[..][i] == val[i];
  }

  /** `entries` is the argument cut into entries. */
  method ConvBits2WideType(bits: Bits, entry: nat, width: nat, dataBits: nat)
      returns (res: array<Bits>, ghost entries: seq<Bits>)
    requires |bits| == entry * width
    ensures fresh(res) && |entries| == width
    ensures Uniform(entries, entry) && Concat(entries) == bits
    ensures res[..] == ResizeAll(entries, dataBits)
    ensures forall i :: 0 <= i < width ==> Value(res[i]) == Value(entries[i]) % Pow2(dataBits)
  {
    res := new Bits[width];
    entries := [];
    for i := 0 to width
      invariant |entries| == i && entry * i <= |bits|
      invariant Uniform(entries, entry) && Concat(entries) == bits[..entry * i]
      invariant res[..i] == ResizeAll(entries, dataBits)
    {
      Slot(entry, i, width);
      NextElement(entries, bits, entry, entry * i, entry * (i + 1));
      var inDatBits := Range(bits, entry * (i + 1) - 1, entry * i);
      entries := entries + [inDatBits];
      res[i] := Resize(inDatBits, dataBits);
    }
    assert res[..width] == res[..];
    forall i | 0 <= i < width
      ensures Value(res[i]) == Value(entries[i]) % Pow2(dataBits)
    {
      ResizeValue(entries[i], dataBits);
      assert res[i] == res[..][i];
    }
  }

  lemma {:induction false} ValueIsSmall(b: Bits)
    ensures Value(b) < Pow2(|b|)
  {
    if b != [] {
      ValueIsSmall(b[1..]);
    }
  }

  lemma {:induction false} ZerosAreWorthless(n: nat)
    ensures Value(seq(n, _ => false)) == 0
  {
    if n > 0 {
      assert seq(n, _ => false)[1..] == seq(n - 1, _ => false);
      ZerosAreWorthless(n - 1);
    }
  }

  lemma RemainderIs(v: nat, d: nat, q: nat, r: nat)
    requires r < d && v == r + d * q
    ensures v % d == r
  {
    var m, t := v / d, v % d;
    assert d * (q - m) == t - r;
    if q > m {
      MulMonotone(d, 1, q - m);
    } else if m > q {
      MulMonotone(d, 1, m - q);
    }
  }

  lemma NarrowedValue(b: Bits, n: nat)
    requires n <= |b|
    ensures Value(b[..n]) == Value(b) % Pow2(n)
  {
    var low, high := b[..n], b[n..];
    ValueIsSmall(low);
    assert b == low + high;
    ValueOfConcat(low, high);
    RemainderIs(Value(b), Pow2(n), Value(high), Value(low));
  }

  lemma {:induction false} Pow2IsMonotone(m: nat, n: nat)
    requires m <= n
    ensures Pow2(m) <= Pow2(n)
  {
    if m < n {
      Pow2IsMonotone(m, n - 1);
    }
  }

  lemma WidenedValue(b: Bits, n: nat)
    ensures Value(b + seq(n, _ => false)) == Value(b)
  {
    ZerosAreWorthless(n);
    ValueOfConcat(b, seq(n, _ => false));
  }

  /** Assigning to another width keeps the value modulo 2^n: it drops the high bits of a narrowed number and
      leaves a widened one as it is. */
  lemma ResizeValue(b: Bits, n: nat)
    ensures Value(Resize(b, n)) == Value(b) % Pow2(n)
    ensures |b| <= n ==> Value(Resize(b, n)) == Value(b)
  {
    if n <= |b| {
      NarrowedValue(b, n);
      assert |b| == n ==> b[..n] == b;
    } else {
      WidenedValue(b, n - |b|);
      ValueIsSmall(b);
      Pow2IsMonotone(|b|, n);
      RemainderIs(Value(b), Pow2(n), 0, Value(b));
    }
  }

  function ResizeAll(v: seq<Bits>, n: nat): (r: seq<Bits>)
    ensures Uniform(r, n)
  {
    seq(|v|, i requires 0 <= i < |v| => Resize(v[i], n))
  }

  /** Entry i, of w bits, is worth what x is worth modulo 2^w. */
  predicate HoldsEntry(b: Bits, w: nat, i: nat, x: Bits) {
    w * (i + 1) <= |b| && Value(Piece(b, w, i)) == Value(x) % Pow2(w)
  }

  lemma EntryOf(entries: seq<Bits>, w: nat, b: Bits, i: nat, x: Bits)
    requires IsCut(entries, b, w) && i < |entries| && entries[i] == Resize(x, w)
    ensures HoldsEntry(b, w, i, x)
  {
    ResizeValue(x, w);
    assert entries[i] == Piece(b, w, i);
  }

  lemma EntriesOf(v: seq<Bits>, w: nat, b: Bits)
    requires Concat(ResizeAll(v, w)) == b
    ensures forall i :: 0 <= i < |v| ==> HoldsEntry(b, w, i, v[i])
  {
    CutIffConcat(ResizeAll(v, w), b, w);
    forall i | 0 <= i < |v|
      ensures HoldsEntry(b, w, i, v[i])
    {
      EntryOf(ResizeAll(v, w), w, b, i, v[i]);
    }
  }

  /** The bits of b from position n on are zero. */
  predicate Fits(b: Bits, n: nat) {
    forall k :: n <= k < |b| ==> !b[k]
  }

  lemma ResizeBack(b: Bits, n: nat)
    ensures Resize(Resize(b, n), |b|) == b <==> Fits(b, n)
  {
  }

  lemma ResizeAllBack(v: seq<Bits>, w: nat, n: nat)
    requires Uniform(v, w)
    ensures ResizeAll(ResizeAll(v, n), w) == v <==> forall i :: 0 <= i < |v| ==> Fits(v[i], n)
  {
    var r := ResizeAll(ResizeAll(v, n), w);
    forall i | 0 <= i < |v|
      ensures r[i] == v[i] <==> Fits(v[i], n)
    {
      ResizeBack(v[i], n);
    }
  }

  /** Narrowing each element to an entry and widening it again gives the vector back exactly when every
      element fits in an entry. */
  method NarrowAndWiden(val: array<Bits>, dataBits: nat, entry: nat, undefined: Bits) returns (back: array<Bits>)
    requires Uniform(val[..], dataBits) && |undefined| == entry * val.Length
    ensures back[..] == val[..] <==> forall i :: 0 <= i < val.Length ==> Fits(val[i], entry)
  {
    var packed := ConvWideVal2Bits(val, dataBits, entry, undefined);
    var entries := ResizeAll(val[..], entry);
    ConcatLength(entries, entry);
    ghost var cut;
    back, cut := ConvBits2WideType(packed, entry, val.Length, dataBits);
    CutIffConcat(entries, packed, entry);
    CutIffConcat(cut, packed, entry);
    ResizeAllBack(val[..], dataBits, entry);
    assert forall i :: 0 <= i < val.Length ==> val[..][i] == val[i];
  }
}
