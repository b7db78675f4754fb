/** The frequency list information element in the range formats: layout, reference
    decoder (section 10.5.2.13 of 3GPP TS 04.08) and the encoders that fill it. */
module FreqList {
  import opened Arith
  import opened Bits
  import opened RangeTree
  import opened RangeWords
  import opened RangePack
  import opened AnnexJ

  const OCTETS := 16

  datatype Format = Range128 | Range256 | Range512 | Range1024

  /** Bits of W(1); the modulus of the format is one less than this power of two. */
  function WordBits(f: Format): (n: nat) {
    match f case Range128 => 7 case Range256 => 8 case Range512 => 9 case Range1024 => 10
  }

  function WordCount(f: Format): (n: nat) {
    match f case Range128 => 28 case Range256 => 21 case Range512 => 17 case Range1024 => 16
  }

  /** Bit position of W(1). */
  function WordStart(f: Format): (n: nat) {
    if f.Range1024? then 6 else 17
  }

  lemma LevelIs(k: nat, l: nat)
    requires Pow2(l) <= k < 2 * Pow2(l)
    ensures Level(k) == l
  {
    LevelBounds(k);
    if l < Level(k) {
      Pow2Order(l, Level(k));
    } else if Level(k) < l {
      Pow2Order(Level(k), l);
    }
  }

  /** The words of one tree level lie side by side, all equally long. */
  lemma {:induction false} LevelRun(start: nat, w1Len: nat, l: nat, m: nat, p: nat, q: nat)
    requires p == Pow2(l) && m <= p && l <= w1Len && FieldStart(start, w1Len, p) == q
    ensures FieldStart(start, w1Len, p + m) == q + m * (w1Len - l)
    decreases m
  {
    if m > 0 {
      LevelRun(start, w1Len, l, m - 1, p, q);
      LevelIs(p + m - 1, l);
      assert m * (w1Len - l) == (m - 1) * (w1Len - l) + (w1Len - l);
    }
  }

  lemma Layout128()
    ensures FieldStart(17, 7, 29) == 127
  {
    LevelRun(17, 7, 0, 1, 1, 17);
    LevelRun(17, 7, 1, 2, 2, 24);
    LevelRun(17, 7, 2, 4, 4, 36);
    LevelRun(17, 7, 3, 8, 8, 56);
    LevelRun(17, 7, 4, 13, 16, 88);
  }

  lemma Layout256()
    ensures FieldStart(17, 8, 22) == 127
  {
    LevelRun(17, 8, 0, 1, 1, 17);
    LevelRun(17, 8, 1, 2, 2, 25);
    LevelRun(17, 8, 2, 4, 4, 39);
    LevelRun(17, 8, 3, 8, 8, 63);
    LevelRun(17, 8, 4, 6, 16, 103);
  }

  lemma Layout512()
    ensures FieldStart(17, 9, 18) == 128
  {
    LevelRun(17, 9, 0, 1, 1, 17);
    LevelRun(17, 9, 1, 2, 2, 26);
    LevelRun(17, 9, 2, 4, 4, 42);
    LevelRun(17, 9, 3, 8, 8, 70);
    LevelRun(17, 9, 4, 2, 16, 118);
  }

  lemma Layout1024()
    ensures FieldStart(6, 10, 17) == 128
  {
    LevelRun(6, 10, 0, 1, 1, 6);
    LevelRun(6, 10, 1, 2, 2, 16);
    LevelRun(6, 10, 2, 4, 4, 34);
    LevelRun(6, 10, 3, 8, 8, 66);
    LevelRun(6, 10, 4, 1, 16, 122);
  }

  /** No format needs a bit behind octet 15. */
  lemma Layout(f: Format)
    ensures FieldStart(WordStart(f), WordBits(f), WordCount(f) + 1) <= 8 * OCTETS
  {
    Layout128();
    Layout256();
    Layout512();
    Layout1024();
  }

  // ----- the decoder -----

  datatype Decoded = NotARangeFormat | Arfcns(freqs: set<int>)

  datatype Kind = Known(format: Format) | Unknown

  /** The format identifier bits of octet 0. */
  function KindOf(buf: seq<Octet>): Kind
    requires |buf| == OCTETS
  {
    if !BitAt(buf, 0) || BitAt(buf, 1) then Unknown
    else if !BitAt(buf, 4) then Known(Range1024)
    else if !BitAt(buf, 5) then Known(if BitAt(buf, 6) then Range256 else Range512)
    else if !BitAt(buf, 6) then Known(Range128)
    else Unknown
  }

  lemma WordInside(f: Format, k: nat)
    requires 1 <= k <= WordCount(f)
    ensures FieldStart(WordStart(f), WordBits(f), k) + FieldLen(WordBits(f), k) <= 8 * OCTETS
    ensures Level(k) <= WordBits(f)
  {
    Layout(f);
    FieldInside(WordStart(f), WordBits(f), k, WordCount(f));
    LevelSmall(k, 4);
  }

  lemma FieldInside(start: nat, w1Len: nat, k: nat, n: nat)
    requires 1 <= k <= n
    ensures FieldStart(start, w1Len, k) + FieldLen(w1Len, k) <= FieldStart(start, w1Len, n + 1)
  {
    FieldOrder(start, w1Len, k + 1, n + 1);
  }

  lemma LevelSmall(k: nat, l: nat)
    requires 1 <= k < 32 && l == 4
    ensures Level(k) <= l
  {
    LevelBounds(k);
    assert Pow2(5) == 32;
  }

  function ReadWord(buf: seq<Octet>, f: Format, k: nat): (w: nat)
    requires |buf| == OCTETS && 1 <= k <= WordCount(f)
  {
    WordInside(f, k);
    ReadField(buf, FieldStart(WordStart(f), WordBits(f), k), FieldLen(WordBits(f), k))
  }

  function ReadWords(buf: seq<Octet>, f: Format): (w: seq<nat>)
    requires |buf| == OCTETS
    ensures |w| == WordCount(f)
  {
    seq(WordCount(f), i requires 0 <= i < WordCount(f) => ReadWord(buf, f, i + 1))
  }

  function WordFreq(f: Format, origin: int, w: seq<nat>, k: nat): (r: int)
    requires |w| == WordCount(f) && 1 <= k <= WordCount(f)
  {
    WordInside(f, k);
    Wrap(origin + Frequency(w, WordBits(f), k), 1024)
  }

  /** The frequencies of the non-zero words, counted from the origin. */
  function WordFreqs(f: Format, origin: int, w: seq<nat>): (r: set<int>)
    requires |w| == WordCount(f)
  {
    set k | 1 <= k <= WordCount(f) && w[k - 1] != 0 :: WordFreq(f, origin, w, k)
  }

  function DecodeFreqList(buf: seq<Octet>): (r: Decoded)
    requires |buf| == OCTETS
  {
    match KindOf(buf)
    case Unknown => NotARangeFormat
    case Known(f) =>
      if f.Range1024? then
        // the F0 bit says whether ARFCN 0 belongs to the list
        Arfcns((if BitAt(buf, 5) then {0} else {}) + WordFreqs(f, 0, ReadWords(buf, f)))
      else
        // ORIG-ARFCN is always a member
        var origin := ReadField(buf, 7, 10);
        Arfcns({origin} + WordFreqs(f, origin, ReadWords(buf, f)))
  }

  // ----- what a packed element decodes to -----

  /** The words of a tree; where it has no node, the word is 0. */
  predicate WordsFrom(w: seq<nat>, tree: Tree) {
    forall t :: 1 <= t <= |w| ==> w[t - 1] == if At(tree, t) then Word(tree, t) else 0
  }

  /** All words of the format are those of a tree whose values lie on their circles. */
  predicate WordsAre(w: seq<nat>, f: Format, tree: Tree) {
    |w| == WordCount(f) && InRange(WordBits(f), tree) && WordsFrom(w, tree)
  }

  lemma WordFits(w: seq<nat>, f: Format, tree: Tree, k: nat)
    requires WordsAre(w, f, tree) && 1 <= k <= |w|
    ensures w[k - 1] < Pow2(FieldLen(WordBits(f), k))
    ensures w[k - 1] != 0 <==> At(tree, k)
  {
    if At(tree, k) {
      WordBounds(WordBits(f), tree, k);
    }
  }

  predicate AllFit(w: seq<nat>, f: Format) {
    |w| == WordCount(f) && forall k :: 1 <= k <= |w| ==> w[k - 1] < Pow2(FieldLen(WordBits(f), k))
  }

  lemma WordsFit(w: seq<nat>, f: Format, tree: Tree)
    requires WordsAre(w, f, tree)
    ensures AllFit(w, f)
  {
    forall k | 1 <= k <= |w| ensures w[k - 1] < Pow2(FieldLen(WordBits(f), k)) {
      WordFits(w, f, tree, k);
    }
  }

  /** Any words that fit their fields are read back from the packed buffer. */
  lemma WordsReadBack(buf: seq<Octet>, w: seq<nat>, f: Format)
    requires |buf| == OCTETS && AllFit(w, f) && FieldsAre(buf, WordStart(f), WordBits(f), w, WordCount(f))
    ensures ReadWords(buf, f) == w
  {
    forall i | 0 <= i < WordCount(f) ensures ReadWords(buf, f)[i] == w[i] {
      FieldOf(buf, WordStart(f), WordBits(f), w, WordCount(f), i + 1);
      assert w[i + 1 - 1] < Pow2(FieldLen(WordBits(f), i + 1));
      ReadBack(buf, FieldStart(WordStart(f), WordBits(f), i + 1), FieldLen(WordBits(f), i + 1), w[i]);
    }
  }

  /** The frequencies of positions behind an origin. */
  function Placed(origin: int, xs: set<int>): (r: set<int>) {
    set x | x in xs :: Wrap(origin + 1 + x, 1024)
  }

  lemma WordFreqIs(w: seq<nat>, f: Format, tree: Tree, origin: int, t: nat)
    requires WordsAre(w, f, tree) && 1 <= t <= |w| && At(tree, t)
    ensures WordFreq(f, origin, w, t) == Wrap(origin + 1 + Elem(tree, t), 1024)
  {
    DecodesElem(w, WordBits(f), tree, t);
  }

  /** Word t is there exactly if node t is, from node `from` on, and decodes to its element. */
  predicate Tells(w: seq<nat>, f: Format, tree: Tree, origin: int, from: nat, t: nat)
    requires |w| == WordCount(f) && 1 <= t <= |w|
  {
    && (w[t - 1] != 0 <==> from <= t && At(tree, t))
    && (from <= t && At(tree, t) ==> WordFreq(f, origin, w, t) == Wrap(origin + 1 + Elem(tree, t), 1024))
  }

  /** Words decode to exactly the elements of their nodes. */
  lemma WordFreqsPlaced(w: seq<nat>, f: Format, tree: Tree, origin: int)
    requires WordsAre(w, f, tree)
    ensures WordFreqs(f, origin, w) == Placed(origin, Shown(tree, 1, WordCount(f)))
  {
    forall t: nat | 1 <= t <= |w| ensures Tells(w, f, tree, origin, 1, t) {
      WordFits(w, f, tree, t);
      if At(tree, t) {
        WordFreqIs(w, f, tree, origin, t);
      }
    }
    FreqsPlaced(w, f, tree, origin, 1);
  }

  lemma FreqsPlaced(w: seq<nat>, f: Format, tree: Tree, origin: int, from: nat)
    requires |w| == WordCount(f) && from >= 1
    requires forall t: nat :: 1 <= t <= |w| ==> Tells(w, f, tree, origin, from, t)
    ensures WordFreqs(f, origin, w) == Placed(origin, Shown(tree, from, WordCount(f)))
  {
    FreqsWithin(w, f, tree, origin, from, Placed(origin, Shown(tree, from, WordCount(f))));
    forall t: nat | from <= t <= WordCount(f) && At(tree, t)
      ensures Wrap(origin + 1 + Elem(tree, t), 1024) in WordFreqs(f, origin, w) {
      TellsFreq(w, f, tree, origin, from, t);
    }
    PlacedWithin(tree, from, WordCount(f), origin, WordFreqs(f, origin, w));
  }

  lemma FreqsWithin(w: seq<nat>, f: Format, tree: Tree, origin: int, from: nat, placed: set<int>)
    requires |w| == WordCount(f) && placed == Placed(origin, Shown(tree, from, WordCount(f)))
    requires forall t: nat :: 1 <= t <= |w| ==> Tells(w, f, tree, origin, from, t)
    ensures WordFreqs(f, origin, w) <= placed
  {
    forall k: nat | 1 <= k <= WordCount(f) && w[k - 1] != 0 ensures WordFreq(f, origin, w, k) in placed {
      TellsPlaced(w, f, tree, origin, from, k);
    }
  }

  lemma TellsPlaced(w: seq<nat>, f: Format, tree: Tree, origin: int, from: nat, t: nat)
    requires |w| == WordCount(f) && 1 <= t <= |w| && w[t - 1] != 0 && Tells(w, f, tree, origin, from, t)
    ensures WordFreq(f, origin, w, t) in Placed(origin, Shown(tree, from, WordCount(f)))
  {
    assert Elem(tree, t) in Shown(tree, from, WordCount(f));
  }

  lemma TellsFreq(w: seq<nat>, f: Format, tree: Tree, origin: int, from: nat, t: nat)
    requires |w| == WordCount(f) && 1 <= t <= |w| && from <= t && At(tree, t) && Tells(w, f, tree, origin, from, t)
    ensures Wrap(origin + 1 + Elem(tree, t), 1024) in WordFreqs(f, origin, w)
  {
  }

  lemma PlacedWithin(tree: Tree, from: nat, n: nat, origin: int, freqs: set<int>)
    requires forall t: nat :: from <= t <= n && At(tree, t) ==> Wrap(origin + 1 + Elem(tree, t), 1024) in freqs
    ensures Placed(origin, Shown(tree, from, n)) <= freqs
  {
    forall x | x in Shown(tree, from, n) ensures Wrap(origin + 1 + x, 1024) in freqs {
      var t: nat :| from <= t <= n && At(tree, t) && Elem(tree, t) == x;
    }
  }

  // ----- the encoders -----

  /** Bits 0 to 6 of the element are those of the header octet. */
  predicate HeadIs(buf: seq<Octet>, header: Octet)
    requires |buf| == OCTETS
  {
    forall q :: 0 <= q < 7 ==> (BitAt(buf, q) <==> Bit(header, 7 - q))
  }

  function Header(f: Format): Octet
    requires !f.Range1024?
  {
    match f case Range128 => 0x8C case Range256 => 0x8A case Range512 => 0x88
  }

  lemma HeaderKind(buf: seq<Octet>, f: Format)
    requires |buf| == OCTETS && !f.Range1024? && HeadIs(buf, Header(f))
    ensures KindOf(buf) == Known(f)
  {
    HeaderBits(f);
    HeadBits(buf, Header(f));
  }

  lemma HeaderBits(f: Format)
    requires !f.Range1024?
    ensures Bit(Header(f), 7) && !Bit(Header(f), 6) && Bit(Header(f), 3)
    ensures Bit(Header(f), 2) == f.Range128? && Bit(Header(f), 1) == f.Range256?
  {
    assert Bit(0x8C, 7) && !Bit(0x8C, 6) && Bit(0x8C, 3) && Bit(0x8C, 2) && !Bit(0x8C, 1);
    assert Bit(0x8A, 7) && !Bit(0x8A, 6) && Bit(0x8A, 3) && !Bit(0x8A, 2) && Bit(0x8A, 1);
    assert Bit(0x88, 7) && !Bit(0x88, 6) && Bit(0x88, 3) && !Bit(0x88, 2) && !Bit(0x88, 1);
  }

  lemma HeadBits(buf: seq<Octet>, header: Octet)
    requires |buf| == OCTETS && HeadIs(buf, header)
    ensures BitAt(buf, 0) == Bit(header, 7) && BitAt(buf, 1) == Bit(header, 6) && BitAt(buf, 4) == Bit(header, 3)
    ensures BitAt(buf, 5) == Bit(header, 2) && BitAt(buf, 6) == Bit(header, 1)
  {
  }

  /** The low eight bits, as a store to an octet keeps them. */
  function ToOctet(x: nat): (o: Octet) {
    MaskOctet();
    AndMask(x, 8);
    And(x, 255)
  }

  lemma ToOctetBits(x: nat, i: nat)
    requires i < 8
    ensures Bit(ToOctet(x), i) <==> Bit(x, i)
  {
    MaskOctet();
    AndBits(x, 255, i);
    MaskBits(8, i);
  }

  lemma LowBit(x: nat, i: nat)
    ensures And(x, 1) <= 1
    ensures Bit(And(x, 1), i) <==> i == 0 && Bit(x, 0)
  {
    AndBits(x, 1, i);
    AndMask(x, 1);
    assert Mask(1) == 1;
    MaskBits(1, i);
  }

  /** The three octets of write_orig_arfcn hold ORIG-ARFCN in bits 7 to 16. */
  lemma OrigBits(buf: seq<Octet>, header: Octet, f0: nat)
    requires |buf| == OCTETS && !Bit(header, 0)
    requires buf[0] == Or(header, And(Shr(f0, 9), 1)) && buf[1] == ToOctet(Shr(f0, 1))
    requires buf[2] == Shl(And(f0, 1), 7)
    ensures HeadIs(buf, header) && FieldIs(buf, 7, 10, f0)
  {
    forall q | 0 <= q < 7 ensures BitAt(buf, q) <==> Bit(header, 7 - q) {
      OrBits(header, And(Shr(f0, 9), 1), 7 - q);
      LowBit(Shr(f0, 9), 7 - q);
    }
    forall q | 7 <= q < 17 ensures BitAt(buf, q) <==> Bit(f0, 16 - q) {
      OrigBit(buf, header, f0, q);
    }
  }

  lemma OrigBit(buf: seq<Octet>, header: Octet, f0: nat, q: nat)
    requires |buf| == OCTETS && !Bit(header, 0) && 7 <= q < 17
    requires buf[0] == Or(header, And(Shr(f0, 9), 1)) && buf[1] == ToOctet(Shr(f0, 1))
    requires buf[2] == Shl(And(f0, 1), 7)
    ensures BitAt(buf, q) <==> Bit(f0, 16 - q)
  {
    if q == 7 {
      OrBits(header, And(Shr(f0, 9), 1), 0);
      LowBit(Shr(f0, 9), 0);
      ShrBits(f0, 9, 0);
    } else if q < 16 {
      ToOctetBits(Shr(f0, 1), 15 - q);
      ShrBits(f0, 1, 15 - q);
    } else {
      ShlBits(And(f0, 1), 7, 7);
      LowBit(f0, 0);
    }
  }

  lemma OrOctet(x: Octet, y: nat)
    requires y <= 255
    ensures Or(x, y) < 256
  {
    MaskOctet();
    OrFits(x, y, 8);
  }

  method WriteOrigArfcn(chan: array<Octet>, f0: nat)
    requires chan.Length == OCTETS && !Bit(chan[0], 0)
    modifies chan
    ensures HeadIs(chan[..], old(chan[0])) && FieldIs(chan[..], 7, 10, f0)
    ensures SameOutside(chan[..], old(chan[..]), 7, 24)
  {
    ghost var header := chan[0];
    LowBit(Shr(f0, 9), 0);
    LowBit(f0, 0);
    OrOctet(header, And(Shr(f0, 9), 1));
    assert Shl(1, 7) == 128 && Shl(0, 7) == 0;
    chan[0] := Or(chan[0], And(Shr(f0, 9), 1));
    chan[1] := ToOctet(Shr(f0, 1));
    chan[2] := Shl(And(f0, 1), 7);
    OrigBits(chan[..], header, f0);
    assert SameOutside(chan[..], old(chan[..]), 7, 24) by {
      forall q | 0 <= q < 7 ensures BitAt(chan[..], q) <==> BitAt(old(chan[..]), q) {
        assert BitAt(chan[..], q) <==> Bit(header, 7 - q);
      }
    }
  }

  /** A complete element: format, origin or F0 flag, and all words of the format. */
  predicate Packed(buf: seq<Octet>, f: Format, f0: nat, f0Included: bool, w: seq<nat>) {
    && |buf| == OCTETS && |w| == WordCount(f) && KindOf(buf) == Known(f)
    && (if f.Range1024? then BitAt(buf, 5) == f0Included else FieldIs(buf, 7, 10, f0))
    && FieldsAre(buf, WordStart(f), WordBits(f), w, WordCount(f))
  }

  /** Writing words behind bit 16 keeps format and origin. */
  lemma PackedOrig(buf: seq<Octet>, was: seq<Octet>, f: Format, f0: nat, w: seq<nat>)
    requires |buf| == |was| == OCTETS && !f.Range1024? && |w| == WordCount(f)
    requires HeadIs(was, Header(f)) && FieldIs(was, 7, 10, f0)
    requires FieldsAre(buf, 17, WordBits(f), w, WordCount(f))
    requires SameOutside(buf, was, 17, FieldStart(17, WordBits(f), WordCount(f) + 1))
    ensures Packed(buf, f, f0, false, w)
  {
    KeepField(buf, was, 7, 10, f0, 17, FieldStart(17, WordBits(f), WordCount(f) + 1));
    forall q | 0 <= q < 7 ensures BitAt(buf, q) <==> Bit(Header(f), 7 - q) {
      assert BitAt(buf, q) <==> BitAt(was, q);
    }
    HeaderKind(buf, f);
  }

  /** Origin and words behind the header octet. */
  method WriteBehindHead(chan: array<Octet>, f: Format, f0: nat, w: seq<nat>)
    requires chan.Length == OCTETS && !f.Range1024? && |w| == WordCount(f)
    requires chan[0] == Header(f) && !Bit(chan[0], 0)
    modifies chan
    ensures Packed(chan[..], f, f0, false, w)
  {
    WriteOrigArfcn(chan, f0);
    ghost var head := chan[..];
    Layout(f);
    WriteAllWn(chan, 2, 1, w, WordCount(f), WordBits(f), 17);
    PackedOrig(chan[..], head, f, f0, w);
  }

  method RangeEnc128(chan: array<Octet>, f0: nat, w: seq<nat>)
    requires chan.Length == OCTETS && |w| >= 28
    modifies chan
    ensures Packed(chan[..], Range128, f0, false, w[..28])
  {
    assert !Bit(0x8C, 0);
    chan[0] := 0x8C;
    WriteBehindHead(chan, Range128, f0, w[..28]);
  }

  method RangeEnc256(chan: array<Octet>, f0: nat, w: seq<nat>)
    requires chan.Length == OCTETS && |w| >= 21
    modifies chan
    ensures Packed(chan[..], Range256, f0, false, w[..21])
  {
    assert !Bit(0x8A, 0);
    chan[0] := 0x8A;
    WriteBehindHead(chan, Range256, f0, w[..21]);
  }

  method RangeEnc512(chan: array<Octet>, f0: nat, w: seq<nat>)
    requires chan.Length == OCTETS && |w| >= 17
    modifies chan
    ensures Packed(chan[..], Range512, f0, false, w[..17])
  {
    assert !Bit(0x88, 0);
    chan[0] := 0x88;
    WriteBehindHead(chan, Range512, f0, w[..17]);
  }

  function Header1024(f0Included: bool): Octet {
    if f0Included then 0x84 else 0x80
  }

  lemma Head1024(flag: nat)
    requires flag <= 1
    ensures Or(0x80, Shl(flag, 2)) == Header1024(flag == 1)
  {
    assert Or(0x80, Shl(1, 2)) == 0x84 && Or(0x80, Shl(0, 2)) == 0x80;
  }

  lemma Kind1024(buf: seq<Octet>, f0Included: bool)
    requires |buf| == OCTETS && buf[0] == Header1024(f0Included)
    ensures KindOf(buf) == Known(Range1024) && BitAt(buf, 5) == f0Included
  {
    assert Bit(0x80, 7) && !Bit(0x80, 6) && !Bit(0x80, 3) && !Bit(0x80, 2);
    assert Bit(0x84, 7) && !Bit(0x84, 6) && !Bit(0x84, 3) && Bit(0x84, 2);
  }

  lemma Packed1024(buf: seq<Octet>, was: seq<Octet>, f: Format, f0: nat, f0Included: bool, w: seq<nat>)
    requires |buf| == |was| == OCTETS && f.Range1024? && |w| == WordCount(f)
    requires KindOf(was) == Known(f) && BitAt(was, 5) == f0Included
    requires FieldsAre(buf, 6, WordBits(f), w, WordCount(f))
    requires SameOutside(buf, was, 6, FieldStart(6, WordBits(f), WordCount(f) + 1))
    ensures Packed(buf, f, f0, f0Included, w)
  {
    assert BitAt(buf, 0) <==> BitAt(was, 0);
    assert BitAt(buf, 1) <==> BitAt(was, 1);
    assert BitAt(buf, 4) <==> BitAt(was, 4);
    assert BitAt(buf, 5) <==> BitAt(was, 5);
  }

  method WriteHead1024(chan: array<Octet>, f0Included: bool)
    requires chan.Length == OCTETS
    modifies chan
    ensures KindOf(chan[..]) == Known(Range1024) && BitAt(chan[..], 5) == f0Included
    ensures chan[1..] == old(chan[1..])
  {
    var flag := if f0Included then 1 else 0;
    Head1024(flag);
    chan[0] := Or(0x80, Shl(flag, 2));
    Kind1024(chan[..], f0Included);
  }

  method RangeEnc1024(chan: array<Octet>, f0: nat, f0Included: bool, w: seq<nat>)
    requires chan.Length == OCTETS && |w| >= 16
    modifies chan
    ensures Packed(chan[..], Range1024, f0, f0Included, w[..16])
  {
    WriteHead1024(chan, f0Included);
    WriteBehindFlag(chan, Range1024, f0, f0Included, w[..16]);
  }

  method WriteBehindFlag(chan: array<Octet>, f: Format, ghost f0: nat, ghost f0Included: bool, w: seq<nat>)
    requires chan.Length == OCTETS && f.Range1024? && |w| == WordCount(f)
    requires KindOf(chan[..]) == Known(f) && BitAt(chan[..], 5) == f0Included
    modifies chan
    ensures Packed(chan[..], f, f0, f0Included, w)
  {
    ghost var head := chan[..];
    Layout(f);
    WriteAllWn(chan, 0, 6, w, WordCount(f), WordBits(f), 6);
    Packed1024(chan[..], head, f, f0, f0Included, w);
  }

  /** The frequencies of an element that shows these positions behind f0. */
  function Meant(f: Format, f0: nat, f0Included: bool, xs: set<int>): (r: set<int>) {
    if f.Range1024? then (if f0Included then {0} else {}) + Placed(0, xs) else {f0} + Placed(f0, xs)
  }

  /** Whatever tree is encoded and packed, the decoder finds its elements again, as far as there are
      words for them. */
  lemma PackedDecodes(buf: seq<Octet>, f: Format, f0: nat, f0Included: bool, w: seq<nat>, tree: Tree)
    requires Packed(buf, f, f0, f0Included, w) && WordsAre(w, f, tree) && f0 < 1024
    ensures DecodeFreqList(buf) == Arfcns(Meant(f, f0, f0Included, Shown(tree, 1, WordCount(f))))
  {
    WordsFit(w, f, tree);
    WordFreqsPlaced(w, f, tree, if f.Range1024? then 0 else f0);
    PackedReads(buf, f, f0, f0Included, w);
  }

  lemma PackedReads(buf: seq<Octet>, f: Format, f0: nat, f0Included: bool, w: seq<nat>)
    requires Packed(buf, f, f0, f0Included, w) && AllFit(w, f) && f0 < 1024
    ensures DecodeFreqList(buf) == Arfcns(if f.Range1024? then (if f0Included then {0} else {}) + WordFreqs(f, 0, w)
                                          else {f0} + WordFreqs(f, f0, w))
  {
    WordsReadBack(buf, w, f);
    if !f.Range1024? {
      assert Pow2(5) == 32 && Pow2(10) == 1024;
      ReadBack(buf, 7, 10, f0);
    }
  }

  // ----- a first word that is too large for its field -----

  lemma FieldLow(buf: seq<Octet>, start: nat, len: nat, v: nat)
    requires start + len <= 8 * |buf| && FieldIs(buf, start, len, v)
    ensures FieldIs(buf, start, len, Low(v, len))
  {
    forall q | start <= q < start + len ensures BitAt(buf, q) <==> Bit(Low(v, len), start + len - 1 - q) {
      LowBits(v, len, start + len - 1 - q);
    }
  }

  /** Only the low bits of the first word reach the element. */
  lemma PackedLow(buf: seq<Octet>, f: Format, f0: nat, f0Included: bool, w: seq<nat>)
    requires Packed(buf, f, f0, f0Included, w)
    ensures Packed(buf, f, f0, f0Included, w[0 := Low(w[0], WordBits(f))])
  {
    FieldOf(buf, WordStart(f), WordBits(f), w, WordCount(f), 1);
    FieldLow(buf, WordStart(f), WordBits(f), w[0]);
    OtherFirst(buf, WordStart(f), WordBits(f), w, WordCount(f), Low(w[0], WordBits(f)));
  }

  /** The words of a tree but for the first, which is 0 instead of that of the circle's last place. */
  predicate ZeroRoot(w: seq<nat>, f: Format, tree: Tree) {
    && |w| == WordCount(f) && w[0] == 0
    && WordsAre(w[0 := Range(WordBits(f))], f, tree)
  }

  lemma ZeroRootFits(w: seq<nat>, f: Format, tree: Tree)
    requires ZeroRoot(w, f, tree)
    ensures AllFit(w, f)
  {
    var w' := w[0 := Range(WordBits(f))];
    WordsFit(w', f, tree);
    forall k | 1 <= k <= |w| ensures w[k - 1] < Pow2(FieldLen(WordBits(f), k)) {
      assert w'[k - 1] < Pow2(FieldLen(WordBits(f), k));
    }
  }

  lemma ZeroRootTells(w: seq<nat>, f: Format, tree: Tree, origin: int, t: nat)
    requires ZeroRoot(w, f, tree) && 1 <= t <= |w|
    ensures Tells(w, f, tree, origin, 2, t)
  {
    if t > 1 {
      var w' := w[0 := Range(WordBits(f))];
      WordFits(w', f, tree, t);
      WordInside(f, t);
      if At(tree, t) {
        WordFreqIs(w', f, tree, origin, t);
      }
      FrequencyZeroRoot(w, WordBits(f), t);
    }
  }

  /** A first word of 0 is no word itself, but for the words below it stands for the last place of the
      circle. */
  lemma ZeroFirst(w: seq<nat>, f: Format, tree: Tree, origin: int)
    requires ZeroRoot(w, f, tree)
    ensures AllFit(w, f) && WordFreqs(f, origin, w) == Placed(origin, Shown(tree, 2, WordCount(f)))
  {
    ZeroRootFits(w, f, tree);
    forall t: nat | 1 <= t <= |w| ensures Tells(w, f, tree, origin, 2, t) {
      ZeroRootTells(w, f, tree, origin, t);
    }
    FreqsPlaced(w, f, tree, origin, 2);
  }

  lemma ZeroDecodes(buf: seq<Octet>, f: Format, f0: nat, f0Included: bool, w: seq<nat>, tree: Tree)
    requires Packed(buf, f, f0, f0Included, w) && ZeroRoot(w, f, tree) && f0 < 1024
    ensures DecodeFreqList(buf) == Arfcns(Meant(f, f0, f0Included, Shown(tree, 2, WordCount(f))))
  {
    ZeroFirst(w, f, tree, if f.Range1024? then 0 else f0);
    PackedReads(buf, f, f0, f0Included, w);
  }
}
