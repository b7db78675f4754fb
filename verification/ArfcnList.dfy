/** From a list of ARFCNs to the element: choosing the format, removing F0, encoding and
    packing (range_enc_determine_range and range_enc_filter_arfcns in
    src/osmo-bsc/arfcn_range_encode.c, range_encode in src/osmo-bsc/system_information.c). */
module ArfcnList {
  import opened Arith
  import opened Bits
  import opened RangeTree
  import opened RangeWords
  import opened RangeTurn
  import opened FreqList

  const MAX_ARFCNS := 29

  /** A list as the callers build it: sorted, no duplicates, 0..1023. */
  predicate IsArfcnList(a: seq<int>) {
    && (forall i :: 0 <= i < |a| ==> 0 <= a[i] < 1024)
    && (forall i, j :: 0 <= i < j < |a| ==> a[i] < a[j])
  }

  // ----- range_enc_determine_range -----

  datatype Choice = Invalid | Chosen(format: Format, f0: int)

  /** f0 keeps the caller's value for an empty list. */
  function DetermineRange(a: seq<int>, f0: int): (c: Choice) {
    if |a| == 0 then Chosen(Range128, f0)
    else
      var max := a[|a| - 1] - a[0];
      if max < 128 && |a| <= 29 then Chosen(Range128, a[0])
      else if max < 256 && |a| <= 22 then Chosen(Range256, a[0])
      else if max < 512 && |a| <= 18 then Chosen(Range512, a[0])
      else if max < 1024 && |a| <= 17 then Chosen(Range1024, 0)
      else Invalid
  }

  // ----- range_enc_filter_arfcns -----

  /** Everything but F0, counted from the place after F0. */
  function Filtered(a: seq<int>, f0: int): (r: seq<int>)
    ensures |r| <= |a|
  {
    if a == [] then []
    else
      var last := a[|a| - 1];
      Filtered(a[..|a| - 1], f0) + if last == f0 then [] else [Wrap(last - (f0 + 1), 1024)]
  }

  /** In place; the tail behind the new length keeps the old values. */
  method FilterArfcns(arfcns: array<int>, size: nat, f0: int) returns (n: nat, f0Included: bool)
    requires size <= arfcns.Length
    modifies arfcns
    ensures n <= size && arfcns[..n] == Filtered(old(arfcns[..size]), f0)
    ensures f0Included <==> f0 in old(arfcns[..size])
    ensures forall k :: n <= k < arfcns.Length ==> arfcns[k] == old(arfcns[k])
  {
    ghost var a := arfcns[..size];
    n, f0Included := 0, false;
    for i := 0 to size
      invariant n <= i && arfcns[..n] == Filtered(a[..i], f0)
      invariant f0Included <==> f0 in a[..i]
      invariant forall k :: n <= k < arfcns.Length ==> arfcns[k] == old(arfcns[k])
    {
      assert a[..i + 1][..i] == a[..i] && a[i] == arfcns[i];
      if arfcns[i] == f0 {
        f0Included := true;
      } else {
        var v := Mod(arfcns[i] - (f0 + 1), 1024);
        arfcns[n] := v;
        n := n + 1;
      }
    }
    assert a[..size] == a;
  }

  lemma {:induction false} FilteredHas(a: seq<int>, f0: int, i: nat)
    requires i < |a| && a[i] != f0
    ensures Wrap(a[i] - (f0 + 1), 1024) in Filtered(a, f0)
  {
    if i < |a| - 1 {
      FilteredHas(a[..|a| - 1], f0, i);
    }
  }

  lemma {:induction false} FilteredFrom(a: seq<int>, f0: int, y: int) returns (i: nat)
    requires y in Filtered(a, f0)
    ensures i < |a| && a[i] != f0 && Wrap(a[i] - (f0 + 1), 1024) == y
  {
    i := |a| - 1;
    if a[i] == f0 || Wrap(a[i] - (f0 + 1), 1024) != y {
      i := FilteredFrom(a[..i], f0, y);
    }
  }

  /** Counting from the place after F0 is undone by the decoder. */
  lemma BackFromF0(x: int, f0: int)
    requires 0 <= x < 1024
    ensures Wrap(f0 + 1 + Wrap(x - (f0 + 1), 1024), 1024) == x
  {
    WrapAdd(x - (f0 + 1), f0 + 1, 1024);
  }

  lemma PlacedFiltered(a: seq<int>, f0: int)
    requires forall i :: 0 <= i < |a| ==> 0 <= a[i] < 1024
    ensures Placed(f0, ToSet(Filtered(a, f0))) == ToSet(a) - {f0}
  {
    forall x | x in a && x != f0 ensures x in Placed(f0, ToSet(Filtered(a, f0))) {
      PlacedHas(a, f0, x);
    }
    forall y | y in Filtered(a, f0) ensures Wrap(f0 + 1 + y, 1024) in ToSet(a) - {f0} {
      PlacedFrom(a, f0, y);
    }
  }

  lemma PlacedHas(a: seq<int>, f0: int, x: int)
    requires x in a && x != f0 && 0 <= x < 1024
    ensures x in Placed(f0, ToSet(Filtered(a, f0)))
  {
    var i :| 0 <= i < |a| && a[i] == x;
    FilteredHas(a, f0, i);
    BackFromF0(x, f0);
    assert Wrap(x - (f0 + 1), 1024) in ToSet(Filtered(a, f0));
  }

  lemma PlacedFrom(a: seq<int>, f0: int, y: int)
    requires y in Filtered(a, f0) && forall i :: 0 <= i < |a| ==> 0 <= a[i] < 1024
    ensures Wrap(f0 + 1 + y, 1024) in ToSet(a) - {f0}
  {
    var i := FilteredFrom(a, f0, y);
    BackFromF0(a[i], f0);
  }

  // ----- the filtered list can be encoded -----

  lemma FilteredFresh(a: seq<int>, f0: int)
    requires IsArfcnList(a) && a != []
    ensures Wrap(a[|a| - 1] - (f0 + 1), 1024) !in Filtered(a[..|a| - 1], f0)
  {
    var a', last := a[..|a| - 1], a[|a| - 1];
    if Wrap(last - (f0 + 1), 1024) in Filtered(a', f0) {
      var i := FilteredFrom(a', f0, Wrap(last - (f0 + 1), 1024));
      WrapEqual(a'[i], last, f0 + 1, 1024);
      assert false;
    }
  }

  lemma {:induction false} FilteredWellFormed(range: int, a: seq<int>, f0: int)
    requires IsArfcnList(a)
    requires forall i :: 0 <= i < |a| && a[i] != f0 ==> Wrap(a[i] - (f0 + 1), 1024) < range
    ensures WellFormed(range, Filtered(a, f0))
  {
    if a != [] {
      var a', last := a[..|a| - 1], a[|a| - 1];
      FilteredWellFormed(range, a', f0);
      if last != f0 {
        FilteredFresh(a, f0);
        var r := Filtered(a, f0);
        assert r[..|r| - 1] == Filtered(a', f0);
      } else {
        assert Filtered(a, f0) == Filtered(a', f0);
      }
    }
  }

  lemma {:induction false} FilteredSize(a: seq<int>, f0: int)
    requires IsArfcnList(a)
    ensures |Filtered(a, f0)| == if f0 in a then |a| - 1 else |a|
  {
    if a != [] {
      FilteredSize(a[..|a| - 1], f0);
    }
  }

  lemma FormatRanges()
    ensures Range(WordBits(Range128)) == 127 && Range(WordBits(Range256)) == 255
    ensures Range(WordBits(Range512)) == 511 && Range(WordBits(Range1024)) == 1023
  {
    assert Pow2(5) == 32;
    assert Pow2(7) == 128 && Pow2(8) == 256 && Pow2(9) == 512 && Pow2(10) == 1024;
  }

  /** The chosen format's circle is large enough for what filtering leaves. */
  lemma ChosenEncodable(a: seq<int>, f: Format, f0: int)
    requires IsArfcnList(a) && a != [] && DetermineRange(a, f0) == Chosen(f, f0)
    ensures Encodable(WordBits(f), Filtered(a, f0))
  {
    FormatRanges();
    forall i | 0 <= i < |a| && a[i] != f0 ensures Wrap(a[i] - (f0 + 1), 1024) < Range(WordBits(f)) {
      assert a[0] <= a[i] <= a[|a| - 1];
      assert 0 <= a[i] - (f0 + 1) < 1024;
    }
    FilteredWellFormed(Range(WordBits(f)), a, f0);
  }

  /** The one list that is accepted but does not fit: 17 ARFCNs over more than 511, without ARFCN 0. */
  predicate TooMany(a: seq<int>) {
    |a| == 17 && a[16] - a[0] >= 512 && a[0] != 0
  }

  lemma ZeroIsFirst(a: seq<int>)
    requires IsArfcnList(a) && a != []
    ensures 0 in a <==> a[0] == 0
  {
    if 0 in a {
      var i :| 0 <= i < |a| && a[i] == 0;
    }
  }

  lemma Capacity(a: seq<int>, f: Format, f0: int)
    requires IsArfcnList(a) && a != [] && DetermineRange(a, f0) == Chosen(f, f0)
    ensures |Filtered(a, f0)| <= WordCount(f) <==> !TooMany(a)
    ensures !f.Range1024? ==> f0 in a
    ensures f.Range1024? ==> f0 == 0
  {
    FilteredSize(a, f0);
    ZeroIsFirst(a);
  }

  /** What the element of a chosen format stands for is the list itself. */
  lemma MeantIsList(a: seq<int>, f: Format, f0: nat)
    requires IsArfcnList(a) && a != [] && DetermineRange(a, f0) == Chosen(f, f0)
    ensures Meant(f, f0, f0 in a, ToSet(Filtered(a, f0))) == ToSet(a)
  {
    Capacity(a, f, f0);
    PlacedFiltered(a, f0);
  }

  // ----- too few words -----

  function FreqsTo(f: Format, origin: int, w: seq<nat>, n: nat): (r: set<int>)
    requires |w| == WordCount(f) && n <= |w|
  {
    if n == 0 then {}
    else FreqsTo(f, origin, w, n - 1) + if w[n - 1] != 0 then {WordFreq(f, origin, w, n)} else {}
  }

  lemma {:induction false} FreqsToBound(f: Format, origin: int, w: seq<nat>, n: nat)
    requires |w| == WordCount(f) && n <= |w|
    ensures |FreqsTo(f, origin, w, n)| <= n
  {
    if n > 0 {
      FreqsToBound(f, origin, w, n - 1);
    }
  }

  lemma {:induction false} FreqsToHas(f: Format, origin: int, w: seq<nat>, n: nat, k: nat)
    requires |w| == WordCount(f) && 1 <= k <= n <= |w| && w[k - 1] != 0
    ensures WordFreq(f, origin, w, k) in FreqsTo(f, origin, w, n)
  {
    if k < n {
      FreqsToHas(f, origin, w, n - 1, k);
    }
  }

  /** k words never give more than k frequencies. */
  lemma FewFreqs(f: Format, origin: int, w: seq<nat>)
    requires |w| == WordCount(f)
    ensures |WordFreqs(f, origin, w)| <= WordCount(f)
  {
    FreqsToBound(f, origin, w, |w|);
    forall k | 1 <= k <= |w| && w[k - 1] != 0 ensures WordFreq(f, origin, w, k) in FreqsTo(f, origin, w, |w|) {
      FreqsToHas(f, origin, w, |w|, k);
    }
    SubsetSize(WordFreqs(f, origin, w), FreqsTo(f, origin, w, |w|));
  }

  lemma {:induction false} ListSize(a: seq<int>)
    requires IsArfcnList(a)
    ensures |ToSet(a)| == |a|
  {
    if a != [] {
      ListSize(a[..|a| - 1]);
      assert a[|a| - 1] !in ToSet(a[..|a| - 1]);
      assert ToSet(a) == ToSet(a[..|a| - 1]) + {a[|a| - 1]};
    }
  }

  /** With 17 non-zero ARFCNs the 16 words of the range 1024 format cannot be enough. */
  lemma TooManyDecodesWrong(buf: seq<Octet>, w: seq<nat>, a: seq<int>)
    requires Packed(buf, Range1024, 0, false, w) && IsArfcnList(a) && |a| == 17
    ensures DecodeFreqList(buf) != Arfcns(ToSet(a))
  {
    FewFreqs(Range1024, 0, ReadWords(buf, Range1024));
    ListSize(a);
    var freqs := WordFreqs(Range1024, 0, ReadWords(buf, Range1024));
    assert {} + freqs == freqs;
  }

  // ----- the whole encoder -----

  /** The word array of any n values: rc follows the search at the top. */
  method EncodeWords(f: Format, arfcns: array<int>, n: nat) returns (rc: int, w: seq<nat>)
    requires n <= arfcns.Length && n <= MAX_ARFCNS && forall i :: 0 <= i < n ==> arfcns[i] >= 0
    ensures rc == if n == 0 || Found(WordBits(f), arfcns[..n]) then 0 else -EINVAL
    ensures |w| == MAX_ARFCNS && WordsFrom(w, Build(WordBits(f), arfcns[..n]))
  {
    var words := new int[MAX_ARFCNS](_ => 0);
    ghost var s, j, zeros := arfcns[..n], WordBits(f), words[..];
    BuildWithin(j, s);
    PlaceEncodes(zeros, Build(j, s), n);
    PowOne();
    rc := RangeEncArfcns(RangeOf(f), arfcns, n, words, 0, j, Build(j, s), 0, 1, 0, n);
    EncodedNats(words[..], zeros, j, s);
    w := words[..];
  }

  lemma PowOne()
    ensures IndexOf(0, 0, 1, 0)
  {
  }

  /** A value that is not negative gives a word that is not 0. */
  lemma WordPositive(j: nat, s: seq<int>, t: nat)
    requires At(Build(j, s), t) && forall i :: 0 <= i < |s| ==> s[i] >= 0
    ensures Word(Build(j, s), t) >= 1
  {
    var tree := Build(j, s);
    if t > 1 {
      RangeOdd(j);
      SplitSizes(j, s);
      BoundedPositive(j - 1, if t % 2 == 0 then Left(j, s) else Right(j, s), t / 2);
    }
  }

  lemma BoundedPositive(j: nat, s: seq<int>, t: nat)
    requires Bounded(Range(j), s) && At(Build(j, s), t)
    ensures Word(Build(j, s), t) >= 1
  {
    BuildInRange(j, s);
    WordBounds(j, Build(j, s), t);
  }

  lemma EncodedNats(w: seq<int>, zeros: seq<int>, j: nat, s: seq<int>)
    requires Encodes(w, zeros, Build(j, s)) && forall i :: 0 <= i < |s| ==> s[i] >= 0
    requires forall k :: 0 <= k < |zeros| ==> zeros[k] == 0
    ensures forall k :: 0 <= k < |w| ==> w[k] >= 0
    ensures forall t :: 1 <= t <= |w| ==> w[t - 1] == if At(Build(j, s), t) then Word(Build(j, s), t) else 0
  {
    forall k | 0 <= k < |w| ensures w[k] >= 0 {
      if At(Build(j, s), k + 1) {
        WordPositive(j, s, k + 1);
      }
      assert w[k + 1 - 1] == w[k];
    }
  }

  method PackWords(f: Format, f0: nat, f0Included: bool, w: seq<nat>, chan: array<Octet>)
    requires chan.Length == OCTETS && |w| == MAX_ARFCNS
    modifies chan
    ensures Packed(chan[..], f, f0, f0Included && f.Range1024?, w[..WordCount(f)])
  {
    match f {
      case Range128 => RangeEnc128(chan, f0, w);
      case Range256 => RangeEnc256(chan, f0, w);
      case Range512 => RangeEnc512(chan, f0, w);
      case Range1024 => RangeEnc1024(chan, f0, f0Included, w);
    }
  }

  /** Encode any n values and pack the words of format f (range_encode behind the filter). Where the
      search at the top fails, nothing is written. */
  method EncodeAndPack(f: Format, arfcns: array<int>, n: nat, f0: nat, f0Included: bool, chan: array<Octet>)
    returns (rc: int, ghost w: seq<nat>)
    requires n <= arfcns.Length && n <= MAX_ARFCNS && forall i :: 0 <= i < n ==> arfcns[i] >= 0
    requires chan.Length == OCTETS
    modifies chan
    ensures rc == if n == 0 || Found(WordBits(f), old(arfcns[..n])) then 0 else -EINVAL
    ensures |w| == WordCount(f) && WordsFrom(w, Build(WordBits(f), old(arfcns[..n])))
    ensures if rc == 0 then Packed(chan[..], f, f0, f0Included && f.Range1024?, w) else chan[..] == old(chan[..])
  {
    var ws;
    rc, ws := EncodeWords(f, arfcns, n);
    w := ws[..WordCount(f)];
    WordsPrefix(ws, Build(WordBits(f), arfcns[..n]), WordCount(f));
    if rc < 0 {
      return;
    }
    PackWords(f, f0, f0Included, ws, chan);
  }

  lemma WordsPrefix(w: seq<nat>, tree: Tree, n: nat)
    requires WordsFrom(w, tree) && n <= |w|
    ensures WordsFrom(w[..n], tree)
  {
    forall t | 1 <= t <= n ensures w[..n][t - 1] == if At(tree, t) then Word(tree, t) else 0 {
      assert w[..n][t - 1] == w[t - 1];
    }
  }

  function RangeOf(f: Format): (r: int)
    ensures r == Range(WordBits(f))
  {
    FormatRanges();
    match f case Range128 => 127 case Range256 => 255 case Range512 => 511 case Range1024 => 1023
  }

  /** What an element made from an encodable list decodes to, if there are words for all. */
  lemma EncodableDecodes(buf: seq<Octet>, f: Format, f0: nat, f0Included: bool, w: seq<nat>, s: seq<int>)
    requires Encodable(WordBits(f), s) && |s| <= WordCount(f) && f0 < 1024
    requires |w| == WordCount(f) && WordsFrom(w, Build(WordBits(f), s)) && Packed(buf, f, f0, f0Included, w)
    ensures DecodeFreqList(buf) == Arfcns(Meant(f, f0, f0Included, ToSet(s)))
  {
    var tree := Build(WordBits(f), s);
    BuildBalanced(WordBits(f), s);
    BuildWithin(WordBits(f), s);
    WithinMore(|s|, WordCount(f), tree);
    PackedDecodes(buf, f, f0, f0Included, w, tree);
    ShownAll(tree, WordCount(f));
    BuildMembers(WordBits(f), s);
  }

  lemma EncodableFound(f: Format, s: seq<int>)
    requires Encodable(WordBits(f), s)
    ensures s == [] || Found(WordBits(f), s)
    ensures forall i :: 0 <= i < |s| ==> s[i] >= 0
  {
    if s != [] {
      PivotFound(WordBits(f), s);
    }
    WellFormedBounded(Range(WordBits(f)), s);
    forall i | 0 <= i < |s| ensures s[i] >= 0 {
      assert s[i] in s;
    }
  }

  /** The round trip. A list for which a range is found comes back from the decoder exactly
      when it is not empty and is not the one family that needs a 17th word. An empty list
      leaves F0 at whatever the caller had in it. */
  method EncodeArfcns(arfcns: array<int>, size: nat, f0Unset: nat, chan: array<Octet>) returns (ok: bool)
    requires size <= arfcns.Length && IsArfcnList(arfcns[..size]) && f0Unset < 1024
    requires chan.Length == OCTETS
    modifies arfcns, chan
    ensures ok <==> DetermineRange(old(arfcns[..size]), f0Unset) != Invalid
    ensures ok ==> (DecodeFreqList(chan[..]) == Arfcns(ToSet(old(arfcns[..size])))
                    <==> size > 0 && !TooMany(old(arfcns[..size])))
  {
    ghost var a := arfcns[..size];
    var c := DetermineRange(arfcns[..size], f0Unset);
    if c.Invalid? {
      return false;
    }
    var f, f0 := c.format, c.f0;
    var n, f0Included := FilterArfcns(arfcns, size, f0);
    FilteredEncodable(a, f, f0);
    EncodableFound(f, arfcns[..n]);
    var rc, w := EncodeAndPack(f, arfcns, n, f0, f0Included, chan);
    RoundTrip(chan[..], a, f, f0, w);
    return true;
  }

  lemma FilteredEncodable(a: seq<int>, f: Format, f0: int)
    requires IsArfcnList(a) && DetermineRange(a, f0) == Chosen(f, f0)
    ensures Encodable(WordBits(f), Filtered(a, f0)) && |Filtered(a, f0)| <= MAX_ARFCNS
    ensures a != [] ==> 0 <= f0 < 1024
  {
    ChosenBounds(a, f, f0);
    FilteredSize(a, f0);
    if a == [] {
      assert Filtered(a, f0) == [];
    } else {
      ChosenEncodable(a, f, f0);
    }
  }

  lemma ChosenBounds(a: seq<int>, f: Format, f0: int)
    requires IsArfcnList(a) && DetermineRange(a, f0) == Chosen(f, f0)
    ensures |a| <= MAX_ARFCNS && (a != [] ==> 0 <= f0 < 1024)
  {
  }

  lemma RoundTrip(buf: seq<Octet>, a: seq<int>, f: Format, f0: nat, w: seq<nat>)
    requires IsArfcnList(a) && DetermineRange(a, f0) == Chosen(f, f0) && f0 < 1024
    requires Encodable(WordBits(f), Filtered(a, f0))
    requires |w| == WordCount(f) && WordsFrom(w, Build(WordBits(f), Filtered(a, f0)))
    requires Packed(buf, f, f0, f0 in a && f.Range1024?, w)
    ensures DecodeFreqList(buf) == Arfcns(ToSet(a)) <==> a != [] && !TooMany(a)
  {
    var s := Filtered(a, f0);
    FilteredSize(a, f0);
    if a == [] {
      EncodableDecodes(buf, f, f0, false, w, s);
      assert f0 in Meant(f, f0, false, ToSet(s)) && f0 !in ToSet(a);
    } else {
      Capacity(a, f, f0);
      if TooMany(a) {
        TooManyDecodesWrong(buf, w, a);
      } else {
        EncodableDecodes(buf, f, f0, f0 in a && f.Range1024?, w, s);
        MeantIsList(a, f, f0);
        assert Meant(f, f0, f0 in a && f.Range1024?, ToSet(s)) == Meant(f, f0, f0 in a, ToSet(s));
      }
    }
  }

  /** ARFCNs 1, 41, 81, ... 641 get the range 1024 format and need 17 words of it. */
  lemma TooManyExample(a: seq<int>)
    requires a == seq(17, i requires 0 <= i < 17 => 40 * i + 1)
    ensures IsArfcnList(a) && DetermineRange(a, 0) == Chosen(Range1024, 0) && TooMany(a)
  {
  }
}
