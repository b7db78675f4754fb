/** Codec selection (src/osmo-bsc/codec_pref.c): which of the codecs the MSC prefers fits the request
    and the BTS, and which codecs the BSS advertises (the speech codec lists of 3GPP TS 48.008). */
module CodecPref {

  /** Permitted speech versions of the channel type element. */
  datatype Perm = Fr1 | Fr2 | Fr3 | Fr4 | Fr5 | Hr1 | Hr2 | Hr3 | Hr4 | Hr6 | OtherPerm

  datatype Pchan = TchF | TchFPdch | TchH | TchFTchHPdch | OtherPchan

  datatype Audio = Audio(hr: bool, ver: int)

  /** Codec support, timeslot configuration per transceiver, and AMR rate bits S15-S0 as the set of the
      bits that are set. */
  datatype Bts = Bts(trxs: seq<seq<Pchan>>, efr: bool, amr: bool, hr: bool, amrFull: set<nat>, amrHalf: set<nat>)

  datatype Msc = Msc(audio: seq<Audio>, amr: set<nat>)

  datatype SpeechCodec = SpeechCodec(codec: Perm, cfg: set<nat>)

  datatype RatePref = PreferNone | PreferHr | PreferFr

  datatype ChanMode = Sign | SpeechV1 | SpeechEfr | SpeechAmr

  datatype ChanRate = Sdcch | HalfRate | FullRate

  datatype ModeRate = ModeRate(mode: ChanMode, rate: ChanRate, cfg: set<nat>)

  /** Config-NB-Code = 1, the bit S1; rates are the bits of the low octet. */
  const S1: nat := 1

  function Rates(bits: set<nat>): (r: set<nat>) {
    set x | x in bits && x < 8
  }

  function Upper(bits: set<nat>): (r: set<nat>) {
    set x | x in bits && x >= 8
  }

  // ----- lookups -----

  function PermOf(a: Audio): (r: Perm)
    ensures r in {Fr1, Fr2, Fr3, Hr1, Hr2, Hr3}
  {
    if a.hr then (if a.ver == 2 then Hr2 else if a.ver == 3 then Hr3 else Hr1)
    else (if a.ver == 2 then Fr2 else if a.ver == 3 then Fr3 else Fr1)
  }

  predicate IsFull(p: Perm) {
    p == Fr1 || p == Fr2 || p == Fr3 || p == Fr4 || p == Fr5
  }

  predicate IsAmr(p: Perm) {
    p == Fr3 || p == Hr3
  }

  function ModeOf(p: Perm): ChanMode {
    if p == Fr1 || p == Hr1 then SpeechV1 else if p == Fr2 then SpeechEfr else SpeechAmr
  }

  /** Whether a permitted speech version names a codec type; HR version 2 was never specified. */
  predicate NamesCodec(p: Perm) {
    p != Hr2 && p != OtherPerm
  }

  // ----- what is asked of a codec -----

  predicate Carries(pchan: Pchan, full: bool) {
    || pchan == TchFTchHPdch
    || (full && (pchan == TchF || pchan == TchFPdch))
    || (!full && pchan == TchH)
  }

  predicate SomeSlot(bts: Bts, full: bool) {
    exists t, i :: 0 <= t < |bts.trxs| && 0 <= i < |bts.trxs[t]| && Carries(bts.trxs[t][i], full)
  }

  predicate Enabled(bts: Bts, p: Perm) {
    match p
    case Fr1 => true
    case Fr2 => bts.efr
    case Fr3 => bts.amr
    case Hr1 => bts.hr
    case Hr3 => bts.amr
    case _ => false
  }

  predicate BtsSupports(bts: Bts, p: Perm) {
    Enabled(bts, p) && SomeSlot(bts, IsFull(p))
  }

  /** Both lists let p through; an empty speech codec list is no list at all. */
  predicate Offered(scl: seq<SpeechCodec>, perms: seq<Perm>, p: Perm) {
    p in perms && (scl == [] || (NamesCodec(p) && exists i :: 0 <= i < |scl| && scl[i].codec == p))
  }

  predicate RateFits(pref: RatePref, p: Perm) {
    match pref
    case PreferNone => true
    case PreferHr => !IsFull(p)
    case PreferFr => IsFull(p)
  }

  /** The AMR rate bits the BSS supports for full or half rate. */
  function Supported(msc: Msc, bts: Bts, half: bool): set<nat> {
    (if half then bts.amrHalf else bts.amrFull) * msc.amr
  }

  /** The first entry of the list for p. */
  predicate FirstFor(scl: seq<SpeechCodec>, p: Perm, k: nat) {
    k < |scl| && scl[k].codec == p && forall i :: 0 <= i < k ==> scl[i].codec != p
  }

  /** The bits both sides have. */
  ghost predicate CommonBits(msc: Msc, bts: Bts, scl: seq<SpeechCodec>, p: Perm, bits: set<nat>) {
    if scl == [] then bits == Supported(msc, bts, p == Hr3)
    else exists k: nat :: FirstFor(scl, p, k) && bits == scl[k].cfg * Supported(msc, bts, p == Hr3)
  }

  ghost predicate Acceptable(msc: Msc, bts: Bts, scl: seq<SpeechCodec>, perms: seq<Perm>, pref: RatePref, p: Perm) {
    && RateFits(pref, p)
    && BtsSupports(bts, p)
    && Offered(scl, perms, p)
    && (IsAmr(p) ==> exists bits :: CommonBits(msc, bts, scl, p, bits) && Rates(bits) != {})
  }

  lemma CommonBitsUnique(msc: Msc, bts: Bts, scl: seq<SpeechCodec>, p: Perm, a: set<nat>, b: set<nat>)
    requires CommonBits(msc, bts, scl, p, a) && CommonBits(msc, bts, scl, p, b)
    ensures a == b
  {
    if scl != [] {
      var i: nat :| FirstFor(scl, p, i) && a == scl[i].cfg * Supported(msc, bts, p == Hr3);
      var j: nat :| FirstFor(scl, p, j) && b == scl[j].cfg * Supported(msc, bts, p == Hr3);
    }
  }

  // ----- the tests -----

  /** test_codec_pref; found is the entry of the list, or |scl| without one */
  method TestCodecPref(scl: seq<SpeechCodec>, perms: seq<Perm>, p: Perm) returns (ok: bool, found: nat)
    ensures ok <==> Offered(scl, perms, p)
    ensures ok && scl != [] ==> FirstFor(scl, p, found)
  {
    var hit := false;
    var i := 0;
    while i < |perms|
      invariant 0 <= i <= |perms| && !hit && p !in perms[..i]
    {
      if perms[i] == p {
        hit := true;
        break;
      }
      i := i + 1;
    }
    assert hit <==> p in perms;
    if |scl| == 0 {
      return hit, |scl|;
    }
    if !hit || !NamesCodec(p) {
      return false, |scl|;
    }
    i := 0;
    while i < |scl|
      invariant 0 <= i <= |scl|
      invariant forall j :: 0 <= j < i ==> scl[j].codec != p
    {
      if scl[i].codec == p {
        return true, i;
      }
      i := i + 1;
    }
    return false, |scl|;
  }

  /** test_codec_support_bts: every timeslot of every transceiver is looked at */
  method TestCodecSupportBts(bts: Bts, p: Perm) returns (ok: bool)
    ensures ok <==> BtsSupports(bts, p)
  {
    if p == OtherPerm {
      return false;
    }
    var rateMatch := false;
    var t := 0;
    while t < |bts.trxs|
      invariant 0 <= t <= |bts.trxs|
      invariant rateMatch <==> exists u, i ::
        0 <= u < t && 0 <= i < |bts.trxs[u]| && Carries(bts.trxs[u][i], IsFull(p))
    {
      ghost var before := rateMatch;
      var i := 0;
      while i < |bts.trxs[t]|
        invariant 0 <= i <= |bts.trxs[t]|
        invariant rateMatch <==> before || exists j :: 0 <= j < i && Carries(bts.trxs[t][j], IsFull(p))
      {
        if Carries(bts.trxs[t][i], IsFull(p)) {
          rateMatch := true;
        }
        i := i + 1;
      }
      t := t + 1;
    }
    if !rateMatch {
      return false;
    }
    return Enabled(bts, p);
  }

  /** Config-NB-Code 1 takes the place of every other rate. */
  predicate Narrowed(cfg: set<nat>, bits: set<nat>) {
    && cfg <= bits
    && Upper(cfg) == Upper(bits)
    && Rates(cfg) == if S1 in bits then {S1} else Rates(bits)
  }

  /** match_amr_s15_s0: the common bits, narrowed to S1 in the low octet where S1 is common */
  method MatchAmr(msc: Msc, bts: Bts, scl: seq<SpeechCodec>, p: Perm, found: nat)
    returns (ok: bool, cfg: set<nat>)
    requires scl != [] ==> FirstFor(scl, p, found)
    ensures forall bits :: CommonBits(msc, bts, scl, p, bits) ==> Narrowed(cfg, bits) && (ok <==> Rates(bits) != {})
    ensures exists bits :: CommonBits(msc, bts, scl, p, bits)
  {
    cfg := Supported(msc, bts, p == Hr3);
    if scl != [] {
      cfg := scl[found].cfg * cfg;
    }
    ghost var bits := cfg;
    assert CommonBits(msc, bts, scl, p, bits);
    forall other | CommonBits(msc, bts, scl, p, other) ensures other == bits {
      CommonBitsUnique(msc, bts, scl, p, bits, other);
    }
    if S1 in cfg {
      cfg := Upper(cfg);
      cfg := cfg + {S1};
    }
    ok := Rates(cfg) != {};
  }

  /** match_codec_pref: the first acceptable codec in the order of preference, if there is one */
  method MatchCodecPref(msc: Msc, bts: Bts, scl: seq<SpeechCodec>, perms: seq<Perm>, pref: RatePref)
    returns (ok: bool, out: ModeRate, i: nat)
    ensures ok <==> exists k :: 0 <= k < |msc.audio| && Acceptable(msc, bts, scl, perms, pref, PermOf(msc.audio[k]))
    ensures !ok ==> out == ModeRate(Sign, Sdcch, {})
    ensures ok ==> i < |msc.audio| && Acceptable(msc, bts, scl, perms, pref, PermOf(msc.audio[i]))
    ensures ok ==> forall k :: 0 <= k < i ==> !Acceptable(msc, bts, scl, perms, pref, PermOf(msc.audio[k]))
    ensures ok ==> Chosen(msc, bts, scl, PermOf(msc.audio[i]), out)
  {
    i := 0;
    while i < |msc.audio|
      invariant 0 <= i <= |msc.audio|
      invariant forall k :: 0 <= k < i ==> !Acceptable(msc, bts, scl, perms, pref, PermOf(msc.audio[k]))
    {
      var p := PermOf(msc.audio[i]);
      var hit, cfg := TryCodec(msc, bts, scl, perms, pref, p);
      if hit {
        return true, ModeRate(ModeOf(p), if IsFull(p) then FullRate else HalfRate, cfg), i;
      }
      i := i + 1;
    }
    return false, ModeRate(Sign, Sdcch, {}), i;
  }

  /** The answer for codec p: its mode and rate, and for AMR the narrowed common bits. */
  ghost predicate Chosen(msc: Msc, bts: Bts, scl: seq<SpeechCodec>, p: Perm, out: ModeRate) {
    && out.mode == ModeOf(p)
    && out.rate == (if IsFull(p) then FullRate else HalfRate)
    && ChosenBits(msc, bts, scl, p, out.cfg)
  }

  ghost predicate ChosenBits(msc: Msc, bts: Bts, scl: seq<SpeechCodec>, p: Perm, cfg: set<nat>) {
    if IsAmr(p) then exists bits :: CommonBits(msc, bts, scl, p, bits) && Narrowed(cfg, bits) && Rates(bits) != {}
    else cfg == {}
  }

  /** One turn of the selection loop */
  method TryCodec(msc: Msc, bts: Bts, scl: seq<SpeechCodec>, perms: seq<Perm>, pref: RatePref, p: Perm)
    returns (ok: bool, cfg: set<nat>)
    ensures ok <==> Acceptable(msc, bts, scl, perms, pref, p)
    ensures ok ==> ChosenBits(msc, bts, scl, p, cfg)
  {
    if pref == PreferHr && IsFull(p) {
      return false, {};
    }
    if pref == PreferFr && !IsFull(p) {
      return false, {};
    }
    var supported := TestCodecSupportBts(bts, p);
    if !supported {
      return false, {};
    }
    var offered, found := TestCodecPref(scl, perms, p);
    if !offered {
      return false, {};
    }
    if !IsAmr(p) {
      return true, {};
    }
    ok, cfg := MatchAmr(msc, bts, scl, p, found);
  }

  // ----- what the BSS advertises -----

  predicate Advertised(msc: Msc, bts: Bts, a: Audio, e: SpeechCodec) {
    && e.codec == PermOf(a)
    && BtsSupports(bts, e.codec)
    && e.cfg == if IsAmr(e.codec) then Supported(msc, bts, e.codec == Hr3) else {}
  }

  /** The advertised list of the first n preferences. */
  function SupportedList(msc: Msc, bts: Bts, n: nat): (r: seq<SpeechCodec>)
    requires n <= |msc.audio|
  {
    if n == 0 then []
    else
      var p := PermOf(msc.audio[n - 1]);
      SupportedList(msc, bts, n - 1) +
      if BtsSupports(bts, p) then [SpeechCodec(p, if IsAmr(p) then Supported(msc, bts, p == Hr3) else {})] else []
  }

  /** gen_bss_supported_codec_list */
  method GenSupportedList(msc: Msc, bts: Bts) returns (scl: seq<SpeechCodec>)
    ensures scl == SupportedList(msc, bts, |msc.audio|)
  {
    scl := [];
    var i := 0;
    while i < |msc.audio|
      invariant 0 <= i <= |msc.audio| && scl == SupportedList(msc, bts, i)
    {
      var p := PermOf(msc.audio[i]);
      var supported := TestCodecSupportBts(bts, p);
      if supported && NamesCodec(p) {
        var cfg: set<nat> := {};
        if msc.audio[i].ver == 3 {
          cfg := Supported(msc, bts, msc.audio[i].hr);
        }
        scl := scl + [SpeechCodec(p, cfg)];
      }
      i := i + 1;
    }
  }

  lemma {:induction false} SupportedListHas(msc: Msc, bts: Bts, n: nat, e: SpeechCodec)
    requires n <= |msc.audio|
    ensures e in SupportedList(msc, bts, n) <==> exists i :: 0 <= i < n && Advertised(msc, bts, msc.audio[i], e)
  {
    if n > 0 {
      SupportedListHas(msc, bts, n - 1, e);
    }
  }

  /** Whatever is chosen has been advertised, with at least the chosen rates; an AMR choice has a rate. */
  lemma ChosenIsAdvertised(msc: Msc, bts: Bts, scl: seq<SpeechCodec>, perms: seq<Perm>, pref: RatePref, i: nat,
                           out: ModeRate)
    requires i < |msc.audio|
    requires Acceptable(msc, bts, scl, perms, pref, PermOf(msc.audio[i]))
    requires Chosen(msc, bts, scl, PermOf(msc.audio[i]), out)
    ensures exists e :: e in SupportedList(msc, bts, |msc.audio|) && e.codec == PermOf(msc.audio[i])
                     && out.cfg <= e.cfg
    ensures IsAmr(PermOf(msc.audio[i])) ==> Rates(out.cfg) != {}
  {
    var p := PermOf(msc.audio[i]);
    var e := SpeechCodec(p, if IsAmr(p) then Supported(msc, bts, p == Hr3) else {});
    assert Advertised(msc, bts, msc.audio[i], e);
    SupportedListHas(msc, bts, |msc.audio|, e);
    if IsAmr(p) {
      var bits :| CommonBits(msc, bts, scl, p, bits) && Narrowed(out.cfg, bits) && Rates(bits) != {};
      assert S1 in Rates({S1});
      assert bits <= e.cfg;
    }
  }

  /** An MSC that takes an advertised codec as it is gets it, unless it is AMR without any rate. */
  lemma AdvertisedIsAccepted(msc: Msc, bts: Bts, e: SpeechCodec, pref: RatePref)
    requires e in SupportedList(msc, bts, |msc.audio|) && RateFits(pref, e.codec)
    ensures Acceptable(msc, bts, [e], [e.codec], pref, e.codec) <==> (IsAmr(e.codec) ==> Rates(e.cfg) != {})
    ensures exists k :: 0 <= k < |msc.audio| && PermOf(msc.audio[k]) == e.codec
    ensures forall p :: p != e.codec ==> !Acceptable(msc, bts, [e], [e.codec], pref, p)
  {
    SupportedListHas(msc, bts, |msc.audio|, e);
    var i :| 0 <= i < |msc.audio| && Advertised(msc, bts, msc.audio[i], e);
    assert PermOf(msc.audio[i]) == e.codec;
    assert [e][0] == e;
    assert FirstFor([e], e.codec, 0);
    if IsAmr(e.codec) {
      assert CommonBits(msc, bts, [e], e.codec, e.cfg);
      forall bits | CommonBits(msc, bts, [e], e.codec, bits) ensures bits == e.cfg {
        CommonBitsUnique(msc, bts, [e], e.codec, bits, e.cfg);
      }
    }
  }
}
