/** Packing the words into the 16 octets of the information element (write_orig_arfcn,
    write_all_wn and range_enc_range128/256/512/1024 in src/osmo-bsc/arfcn_range_encode.c). */
module RangePack {
  import opened Arith
  import opened Bits
  import opened RangeTree

  /** Bits of word k: W(2^i) to W(2^(i+1)-1) are on w1Len-i bits. */
  function FieldLen(w1Len: nat, k: nat): (n: nat)
    requires k >= 1
  {
    if Level(k) <= w1Len then w1Len - Level(k) else 0
  }

  /** Position of word k when word 1 starts at `start`. */
  function FieldStart(start: nat, w1Len: nat, k: nat): (q: nat)
    requires k >= 1
    ensures q >= start
  {
    if k == 1 then start else FieldStart(start, w1Len, k - 1) + FieldLen(w1Len, k - 1)
  }

  // ----- one slice -----

  function Overlay(o: Octet, slice: nat, c: nat, s: nat): (r: nat)
    requires slice <= Mask(c) && s + c <= 8
  {
    ShlFits(Mask(c), s, c);
    MaskFits(c + s, 8);
    MaskOctet();
    Or(And(o, 255 - Shl(Mask(c), s)), Shl(slice, s))
  }

  lemma {:induction false} MaskFits(n: nat, m: nat)
    requires n <= m
    ensures Mask(n) <= Mask(m)
  {
    if n < m {
      MaskFits(n, m - 1);
    }
  }

  lemma OverlayOctet(o: Octet, slice: nat, c: nat, s: nat)
    requires slice <= Mask(c) && s + c <= 8
    ensures Overlay(o, slice, c, s) < 256
  {
    ShlFits(Mask(c), s, c);
    ShlFits(slice, s, c);
    MaskFits(c + s, 8);
    MaskOctet();
    OrFits(And(o, 255 - Shl(Mask(c), s)), Shl(slice, s), 8);
  }

  /** Clearing and setting a slice changes exactly the c bits above bit s. */
  lemma OverlayBits(o: Octet, slice: nat, c: nat, s: nat, i: nat)
    requires slice <= Mask(c) && s + c <= 8 && i < 8
    ensures Bit(Overlay(o, slice, c, s), i) <==> if s <= i < s + c then Bit(slice, i - s) else Bit(o, i)
  {
    var hole := Shl(Mask(c), s);
    HoleBits(c, s, i);
    OrBits(And(o, 255 - hole), Shl(slice, s), i);
    AndBits(o, 255 - hole, i);
    ShlBits(slice, s, i);
    if i >= s + c {
      FitsNoBit(slice, c, i - s);
    }
  }

  lemma HoleBits(c: nat, s: nat, i: nat)
    requires s + c <= 8 && i < 8
    ensures 0 <= Shl(Mask(c), s) <= 255
    ensures Bit(255 - Shl(Mask(c), s), i) <==> !(s <= i < s + c)
  {
    ShlFits(Mask(c), s, c);
    MaskFits(c + s, 8);
    MaskOctet();
    NotBits(Shl(Mask(c), s), 8, i);
    ShlBits(Mask(c), s, i);
    if i >= s {
      MaskBits(c, i - s);
    }
  }

  lemma {:induction false} FitsNoBit(x: nat, n: nat, i: nat)
    requires x <= Mask(n) && n <= i
    ensures !Bit(x, i)
  {
    if n == 0 {
      ZeroBits(i);
    } else {
      FitsNoBit(x / 2, n - 1, i - 1);
    }
  }

  lemma OverlayOctets(o: Octet, slice: nat, c: nat, s: nat)
    requires slice <= Mask(c) && s + c <= 8
    ensures Shl(Mask(c), s) <= 255 && And(o, 255 - Shl(Mask(c), s)) < 256
    ensures Overlay(o, slice, c, s) == Or(And(o, 255 - Shl(Mask(c), s)), Shl(slice, s)) < 256
  {
    OverlayOctet(o, slice, c, s);
    ShlFits(Mask(c), s, c);
    MaskFits(c + s, 8);
    MaskOctet();
  }

  /** One pass of the inner loop of write_all_wn. */
  method WriteSlice(chan: array<Octet>, octet: nat, bitOffs: nat, w: nat, wkLeft: nat, curBits: nat)
    requires octet < chan.Length && bitOffs <= 8 && 1 <= curBits <= bitOffs
    modifies chan
    ensures FieldIs(chan[..], 8 * octet + bitOffs - curBits, curBits, Shr(w, wkLeft))
    ensures SameOutside(chan[..], old(chan[..]), 8 * octet + bitOffs - curBits, 8 * octet + bitOffs)
  {
    var curMask := Shl(1, curBits) - 1;
    ShlOne(curBits);
    AndMask(Shr(w, wkLeft), curBits);
    var slice := And(Shr(w, wkLeft), curMask);
    ghost var o := chan[octet];
    OverlayOctets(o, slice, curBits, 8 - bitOffs);
    chan[octet] := And(chan[octet], 255 - Shl(curMask, 8 - bitOffs));
    chan[octet] := Or(chan[octet], Shl(slice, 8 - bitOffs));
    SliceInBuffer(chan[..], old(chan[..]), octet, bitOffs, Shr(w, wkLeft), curBits);
  }

  lemma {:induction false} ShlOne(n: nat)
    ensures Shl(1, n) == Pow2(n)
  {
    if n > 0 {
      ShlOne(n - 1);
    }
  }

  lemma SliceInBuffer(buf: seq<Octet>, was: seq<Octet>, octet: nat, bitOffs: nat, v: nat, c: nat)
    requires |buf| == |was| && octet < |buf| && bitOffs <= 8 && 1 <= c <= bitOffs
    requires And(v, Mask(c)) <= Mask(c)
    requires buf == was[octet := buf[octet]] && buf[octet] == Overlay(was[octet], And(v, Mask(c)), c, 8 - bitOffs)
    ensures FieldIs(buf, 8 * octet + bitOffs - c, c, v)
    ensures SameOutside(buf, was, 8 * octet + bitOffs - c, 8 * octet + bitOffs)
  {
    forall q | 0 <= q < 8 * |buf|
      ensures if 8 * octet + bitOffs - c <= q < 8 * octet + bitOffs
              then BitAt(buf, q) <==> Bit(v, 8 * octet + bitOffs - 1 - q)
              else BitAt(buf, q) <==> BitAt(was, q)
    {
      if q / 8 == octet {
        SliceBit(was[octet], v, c, 8 - bitOffs, 7 - q % 8);
      }
    }
  }

  /** The bits of an octet after a slice of v was laid over it. */
  lemma SliceBit(o: Octet, v: nat, c: nat, s: nat, i: nat)
    requires And(v, Mask(c)) <= Mask(c) && s + c <= 8 && i < 8
    ensures Bit(Overlay(o, And(v, Mask(c)), c, s), i) <==> if s <= i < s + c then Bit(v, i - s) else Bit(o, i)
  {
    OverlayBits(o, And(v, Mask(c)), c, s, i);
    if s <= i < s + c {
      AndBits(v, Mask(c), i - s);
      MaskBits(c, i - s);
    }
  }

  /** One word: the inner while loop. */
  method WriteWord(chan: array<Octet>, octet: nat, bitOffs: nat, w: nat, wkLen: nat)
    returns (octet': nat, bitOffs': nat)
    requires bitOffs < 8 && 8 * octet + bitOffs + wkLen <= 8 * chan.Length
    modifies chan
    ensures bitOffs' < 8 && 8 * octet' + bitOffs' == 8 * octet + bitOffs + wkLen
    ensures FieldIs(chan[..], 8 * octet + bitOffs, wkLen, w)
    ensures SameOutside(chan[..], old(chan[..]), 8 * octet + bitOffs, 8 * octet + bitOffs + wkLen)
  {
    ghost var start := 8 * octet + bitOffs;
    var wkLeft := wkLen;
    octet', bitOffs' := octet, bitOffs;
    while wkLeft > 0
      invariant 0 <= wkLeft <= wkLen
      invariant bitOffs' < 8 && 8 * octet' + bitOffs' == start + wkLen - wkLeft
      invariant FieldIs(chan[..], start, wkLen - wkLeft, Shr(w, wkLeft))
      invariant SameOutside(chan[..], old(chan[..]), start, start + wkLen - wkLeft)
    {
      var curBits := 8 - bitOffs';
      if curBits > wkLeft {
        curBits := wkLeft;
      }
      ghost var before := chan[..];
      ghost var wasLeft := wkLeft;
      wkLeft := wkLeft - curBits;
      bitOffs' := bitOffs' + curBits;
      WriteSlice(chan, octet', bitOffs', w, wkLeft, curBits);
      JoinFields(chan[..], before, start, wkLen - wasLeft, curBits, w, wkLeft);
      if bitOffs' == 8 {
        bitOffs' := 0;
        octet' := octet' + 1;
      }
    }
  }

  /** A field and the slice right behind it make one longer field. */
  lemma JoinFields(buf: seq<Octet>, was: seq<Octet>, start: nat, n: nat, c: nat, w: nat, left: nat)
    requires start + n + c <= 8 * |buf| && |was| == |buf|
    requires FieldIs(was, start, n, Shr(w, left + c)) && FieldIs(buf, start + n, c, Shr(w, left))
    requires SameOutside(buf, was, start + n, start + n + c)
    ensures FieldIs(buf, start, n + c, Shr(w, left))
  {
    forall q | start <= q < start + (n + c) ensures BitAt(buf, q) <==> Bit(Shr(w, left), start + (n + c) - 1 - q) {
      if q < start + n {
        assert BitAt(buf, q) <==> BitAt(was, q);
        ShrBits(w, left + c, start + n - 1 - q);
        ShrBits(w, left, start + (n + c) - 1 - q);
      }
    }
  }

  // ----- all words -----

  /** Fields 1..n of the buffer hold the words of w. */
  predicate FieldsAre(buf: seq<Octet>, start: nat, w1Len: nat, w: seq<nat>, n: nat)
    requires n <= |w|
  {
    n == 0 || (
      && FieldsAre(buf, start, w1Len, w, n - 1)
      && FieldStart(start, w1Len, n) + FieldLen(w1Len, n) <= 8 * |buf|
      && FieldIs(buf, FieldStart(start, w1Len, n), FieldLen(w1Len, n), w[n - 1]))
  }

  lemma {:induction false} FieldOrder(start: nat, w1Len: nat, k: nat, n: nat)
    requires 1 <= k <= n
    ensures FieldStart(start, w1Len, k) <= FieldStart(start, w1Len, n)
  {
    if k < n {
      FieldOrder(start, w1Len, k, n - 1);
    }
  }

  /** Writing behind the first n words leaves those readable. */
  lemma {:induction false} KeepFields(buf: seq<Octet>, was: seq<Octet>, start: nat, w1Len: nat, w: seq<nat>, n: nat,
                                      lo: nat, hi: nat)
    requires n <= |w| && FieldsAre(was, start, w1Len, w, n)
    requires FieldStart(start, w1Len, n + 1) <= lo && SameOutside(buf, was, lo, hi)
    ensures FieldsAre(buf, start, w1Len, w, n)
    decreases n
  {
    if n > 0 {
      KeepFields(buf, was, start, w1Len, w, n - 1, lo, hi);
      KeepField(buf, was, FieldStart(start, w1Len, n), FieldLen(w1Len, n), w[n - 1], lo, hi);
    }
  }

  lemma {:induction false} FieldOf(buf: seq<Octet>, start: nat, w1Len: nat, w: seq<nat>, n: nat, k: nat)
    requires n <= |w| && FieldsAre(buf, start, w1Len, w, n) && 1 <= k <= n
    ensures FieldStart(start, w1Len, k) + FieldLen(w1Len, k) <= 8 * |buf|
    ensures FieldIs(buf, FieldStart(start, w1Len, k), FieldLen(w1Len, k), w[k - 1])
  {
    if k < n {
      FieldOf(buf, start, w1Len, w, n - 1, k);
    }
  }

  /** The first word may be replaced by any other that its field holds. */
  lemma {:induction false} OtherFirst(buf: seq<Octet>, start: nat, w1Len: nat, w: seq<nat>, n: nat, v: nat)
    requires 1 <= n <= |w| && FieldsAre(buf, start, w1Len, w, n)
    requires start + w1Len <= 8 * |buf| && FieldIs(buf, start, w1Len, v)
    ensures FieldsAre(buf, start, w1Len, w[0 := v], n)
    decreases n
  {
    if n > 1 {
      OtherFirst(buf, start, w1Len, w, n - 1, v);
    }
  }

  lemma KeepField(buf: seq<Octet>, was: seq<Octet>, start: nat, len: nat, v: nat, lo: nat, hi: nat)
    requires |buf| == |was| && start + len <= 8 * |buf| && start + len <= lo
    requires FieldIs(was, start, len, v) && SameOutside(buf, was, lo, hi)
    ensures FieldIs(buf, start, len, v)
  {
    forall q | start <= q < start + len ensures BitAt(buf, q) <==> Bit(v, start + len - 1 - q) {
      assert BitAt(buf, q) <==> BitAt(was, q);
    }
  }

  lemma SameOutsideTrans(a: seq<Octet>, b: seq<Octet>, c: seq<Octet>, lo: nat, mid: nat, hi: nat)
    requires lo <= mid <= hi && SameOutside(b, a, lo, mid) && SameOutside(c, b, mid, hi)
    ensures SameOutside(c, a, lo, hi)
  {
    forall q | 0 <= q < 8 * |c| && !(lo <= q < hi) ensures BitAt(c, q) <==> BitAt(a, q) {
      assert BitAt(c, q) <==> BitAt(b, q);
    }
  }

  lemma AddField(buf: seq<Octet>, was: seq<Octet>, start: nat, w1Len: nat, w: seq<nat>, n: nat)
    requires 1 <= n <= |w| && FieldsAre(was, start, w1Len, w, n - 1)
    requires FieldStart(start, w1Len, n + 1) <= 8 * |buf|
    requires FieldIs(buf, FieldStart(start, w1Len, n), FieldLen(w1Len, n), w[n - 1])
    requires SameOutside(buf, was, FieldStart(start, w1Len, n), FieldStart(start, w1Len, n + 1))
    ensures FieldsAre(buf, start, w1Len, w, n)
  {
    KeepFields(buf, was, start, w1Len, w, n - 1, FieldStart(start, w1Len, n), FieldStart(start, w1Len, n + 1));
  }

  /** The bookkeeping of write_all_wn before word k. */
  predicate Sizes(k: nat, level: nat, lvlLeft: int, wkLen: int, w1Len: nat)
    requires k >= 1
  {
    level == Level(k) && lvlLeft == 2 * Pow2(level) - k && wkLen == w1Len - level
  }

  predicate WordLen(w1Len: nat, k: nat, wkLen: int)
    requires k >= 1
  {
    FieldLen(w1Len, k) == if wkLen > 0 then wkLen else 0
  }

  lemma SizesWordLen(k: nat, level: nat, lvlLeft: int, wkLen: int, w1Len: nat)
    requires k >= 1 && Sizes(k, level, lvlLeft, wkLen, w1Len)
    ensures WordLen(w1Len, k, wkLen)
  {
  }

  /** The end of the outer loop: a completed tree level shortens the words. */
  method NextSize(k: nat, level0: nat, lvlLeft0: int, wkLen0: int, w1Len: nat)
    returns (level: nat, lvlLeft: int, wkLen: int)
    requires k >= 1 && Sizes(k, level0, lvlLeft0, wkLen0, w1Len)
    ensures Sizes(k + 1, level, lvlLeft, wkLen, w1Len)
  {
    NextLevel(k);
    level, lvlLeft, wkLen := level0, lvlLeft0 - 1, wkLen0;
    if lvlLeft == 0 {
      level := level + 1;
      ShlOne(level);
      lvlLeft := Shl(1, level);
      wkLen := wkLen - 1;
    }
  }

  /** Everything write_all_wn has established before word k. */
  predicate Progress(buf: seq<Octet>, was: seq<Octet>, start: nat, w1Len: nat, w: seq<nat>, k: nat, q: nat)
    requires 1 <= k <= |w| + 1
  {
    && q == FieldStart(start, w1Len, k)
    && FieldsAre(buf, start, w1Len, w, k - 1)
    && SameOutside(buf, was, start, q)
  }

  method WriteNth(chan: array<Octet>, octet0: nat, bitOffs0: nat, w: seq<nat>, k: nat, wkLen: int,
                  ghost start: nat, ghost w1Len: nat, ghost was: seq<Octet>)
    returns (octet: nat, bitOffs: nat)
    requires 1 <= k <= |w| && bitOffs0 < 8 && WordLen(w1Len, k, wkLen)
    requires FieldStart(start, w1Len, k + 1) <= 8 * chan.Length
    requires Progress(chan[..], was, start, w1Len, w, k, 8 * octet0 + bitOffs0)
    modifies chan
    ensures bitOffs < 8
    ensures Progress(chan[..], was, start, w1Len, w, k + 1, 8 * octet + bitOffs)
  {
    ghost var lo, hi := FieldStart(start, w1Len, k), FieldStart(start, w1Len, k + 1);
    octet, bitOffs := WriteWord(chan, octet0, bitOffs0, w[k - 1], if wkLen > 0 then wkLen else 0);
    assert hi == lo + FieldLen(w1Len, k);
    AddField(chan[..], old(chan[..]), start, w1Len, w, k);
    SameOutsideTrans(was, old(chan[..]), chan[..], start, lo, hi);
  }

  /** write_all_wn: words 1..wSize into the bits from `bitOffs` of octet `base` on. */
  method WriteAllWn(chan: array<Octet>, base: nat, bitOffs0: nat, w: seq<nat>, wSize: nat, w1Len: nat, ghost start: nat)
    requires wSize <= |w| && bitOffs0 < 8 && start == 8 * base + bitOffs0
    requires FieldStart(start, w1Len, wSize + 1) <= 8 * chan.Length
    modifies chan
    ensures FieldsAre(chan[..], start, w1Len, w, wSize)
    ensures SameOutside(chan[..], old(chan[..]), start, FieldStart(start, w1Len, wSize + 1))
  {
    var octet, bitOffs := base, bitOffs0;
    var wkLen: int := w1Len;
    var level := 0;
    var lvlLeft := 1;
    ghost var was := chan[..];
    for k := 1 to wSize + 1
      invariant bitOffs < 8 && Sizes(k, level, lvlLeft, wkLen, w1Len)
      invariant Progress(chan[..], was, start, w1Len, w, k, 8 * octet + bitOffs)
    {
      FieldOrder(start, w1Len, k + 1, wSize + 1);
      SizesWordLen(k, level, lvlLeft, wkLen, w1Len);
      octet, bitOffs := WriteNth(chan, octet, bitOffs, w, k, wkLen, start, w1Len, was);
      level, lvlLeft, wkLen := NextSize(k, level, lvlLeft, wkLen, w1Len);
    }
  }

  /** The level rises by one after its last node. */
  lemma {:induction false} NextLevel(k: nat)
    requires k >= 1
    ensures Level(k + 1) == if k + 1 == 2 * Pow2(Level(k)) then Level(k) + 1 else Level(k)
  {
    LevelBounds(k);
    if k > 1 {
      NextLevel(k / 2);
      if k % 2 == 1 {
        assert (k + 1) / 2 == k / 2 + 1;
      } else {
        assert (k + 1) / 2 == k / 2;
      }
    }
  }
}
