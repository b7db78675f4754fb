/** The list of units rejected because their unit ID is not configured
    (ipaccess_sign_link_reject in src/osmo-bsc/bts_ipaccess_nanobts.c). */
module RejectedUnits {

  const MAX_ENTRIES := 25

  datatype Key = Key(siteId: nat, btsId: nat, ip: string)

  datatype Entry = Entry(key: Key, time: int)

  // ----- reference: the history read newest first -----

  function Without(s: seq<Entry>, k: Key): (r: seq<Entry>) {
    if s == [] then [] else if s[0].key == k then Without(s[1..], k) else [s[0]] + Without(s[1..], k)
  }

  /** Each key of the history once, with its latest time, latest key first. */
  function NewestFirst(history: seq<Entry>): (r: seq<Entry>) {
    if history == [] then []
    else
      var e := history[|history| - 1];
      [e] + Without(NewestFirst(history[..|history| - 1]), e.key)
  }

  function Take(n: nat, s: seq<Entry>): (r: seq<Entry>) {
    if |s| <= n then s else s[..n]
  }

  predicate Distinct(s: seq<Entry>) {
    forall i, j :: 0 <= i < j < |s| ==> s[i].key != s[j].key
  }

  lemma {:induction false} WithoutAbsent(s: seq<Entry>, k: Key)
    requires forall i :: 0 <= i < |s| ==> s[i].key != k
    ensures Without(s, k) == s
  {
    if s != [] {
      WithoutAbsent(s[1..], k);
    }
  }

  lemma {:induction false} WithoutConcat(s: seq<Entry>, t: seq<Entry>, k: Key)
    ensures Without(s + t, k) == Without(s, k) + Without(t, k)
  {
    if s == [] {
      assert s + t == t;
    } else {
      WithoutConcat(s[1..], t, k);
      assert (s + t)[1..] == s[1..] + t;
      assert (s + t)[0] == s[0];
    }
  }

  /** With distinct keys at most one entry goes. */
  lemma {:induction false} WithoutIndex(s: seq<Entry>, k: Key, i: nat)
    requires Distinct(s) && i < |s| && s[i].key == k
    ensures Without(s, k) == s[..i] + s[i + 1..]
  {
    if i == 0 {
      WithoutAbsent(s[1..], k);
    } else {
      WithoutIndex(s[1..], k, i - 1);
      assert s[..i] == [s[0]] + s[1..][..i - 1];
      assert s[i + 1..] == s[1..][i..];
    }
  }

  lemma WithoutSize(s: seq<Entry>, k: Key)
    requires Distinct(s)
    ensures |s| - 1 <= |Without(s, k)| <= |s|
  {
    if i :| 0 <= i < |s| && s[i].key == k {
      WithoutIndex(s, k, i);
    } else {
      WithoutAbsent(s, k);
    }
  }

  lemma WithoutDistinct(s: seq<Entry>, k: Key)
    requires Distinct(s)
    ensures Distinct(Without(s, k)) && forall i :: 0 <= i < |Without(s, k)| ==> Without(s, k)[i].key != k
  {
    if i :| 0 <= i < |s| && s[i].key == k {
      WithoutIndex(s, k, i);
    } else {
      WithoutAbsent(s, k);
    }
  }

  lemma {:induction false} NewestDistinct(history: seq<Entry>)
    ensures Distinct(NewestFirst(history))
  {
    if history != [] {
      var e := history[|history| - 1];
      NewestDistinct(history[..|history| - 1]);
      WithoutDistinct(NewestFirst(history[..|history| - 1]), e.key);
    }
  }

  /** Index of the latest rejection of a key, or -1. */
  function LastSeen(history: seq<Entry>, k: Key): (i: int)
    ensures -1 <= i < |history|
  {
    if history == [] then -1
    else if history[|history| - 1].key == k then |history| - 1
    else LastSeen(history[..|history| - 1], k)
  }

  /** Two entries that survive a removal keep their order. */
  lemma WithoutOrder(s: seq<Entry>, k: Key, i: nat, i': nat) returns (j: nat, j': nat)
    requires Distinct(s) && i < i' < |Without(s, k)|
    ensures j < j' < |s| && s[j] == Without(s, k)[i] && s[j'] == Without(s, k)[i']
    ensures s[j].key != k && s[j'].key != k
  {
    j, j' := i, i';
    if p :| 0 <= p < |s| && s[p].key == k {
      WithoutIndex(s, k, p);
      j := if i < p then i else i + 1;
      j' := if i' < p then i' else i' + 1;
    } else {
      WithoutAbsent(s, k);
    }
  }

  /** NewestFirst is what its name says: entries are the latest of their key, and earlier
      places in it mean later rejections. */
  lemma {:induction false} NewestFirstOrder(history: seq<Entry>, i: nat, i': nat)
    requires i < i' < |NewestFirst(history)|
    ensures LastSeen(history, NewestFirst(history)[i'].key) < LastSeen(history, NewestFirst(history)[i].key)
  {
    var h, e := history[..|history| - 1], history[|history| - 1];
    var nf := NewestFirst(h);
    NewestDistinct(h);
    if i == 0 {
      WithoutKeeps(nf, e.key, i' - 1);
    } else {
      var j, j' := WithoutOrder(nf, e.key, i - 1, i' - 1);
      NewestFirstOrder(h, j, j');
    }
  }

  lemma WithoutKeeps(s: seq<Entry>, k: Key, i: nat)
    requires Distinct(s) && i < |Without(s, k)|
    ensures exists j :: 0 <= j < |s| && s[j] == Without(s, k)[i] && s[j].key != k
  {
    if p :| 0 <= p < |s| && s[p].key == k {
      WithoutIndex(s, k, p);
      var j := if i < p then i else i + 1;
      assert s[j] == Without(s, k)[i];
    } else {
      WithoutAbsent(s, k);
      assert s[i] == Without(s, k)[i];
    }
  }

  lemma {:induction false} NewestIsLatest(history: seq<Entry>, i: nat)
    requires i < |NewestFirst(history)|
    ensures var e := NewestFirst(history)[i];
            LastSeen(history, e.key) >= 0 && history[LastSeen(history, e.key)] == e
  {
    var h, e := history[..|history| - 1], history[|history| - 1];
    if i > 0 {
      var nf := NewestFirst(h);
      NewestDistinct(h);
      WithoutKeeps(nf, e.key, i - 1);
      var j :| 0 <= j < |nf| && nf[j] == Without(nf, e.key)[i - 1] && nf[j].key != e.key;
      NewestIsLatest(h, j);
    }
  }

  /** Every rejected key appears in it. */
  lemma {:induction false} NewestHasAll(history: seq<Entry>, n: nat)
    requires n < |history|
    ensures exists i :: 0 <= i < |NewestFirst(history)| && NewestFirst(history)[i].key == history[n].key
  {
    var h, e := history[..|history| - 1], history[|history| - 1];
    var nf, all := NewestFirst(h), NewestFirst(history);
    if history[n].key == e.key {
      assert all[0].key == e.key;
    } else {
      NewestHasAll(h, n);
      var j :| 0 <= j < |nf| && nf[j].key == history[n].key;
      var i := WithoutHas(nf, e.key, j);
      assert all[i + 1] == nf[j];
    }
  }

  lemma {:induction false} WithoutHas(s: seq<Entry>, k: Key, j: nat) returns (i: nat)
    requires j < |s| && s[j].key != k
    ensures i < |Without(s, k)| && Without(s, k)[i] == s[j]
  {
    if j == 0 {
      i := 0;
    } else {
      i := WithoutHas(s[1..], k, j - 1);
      if s[0].key != k {
        i := i + 1;
      }
    }
  }

  /** Cutting the list first does not lose anything the cut list will show later. */
  lemma TakeThenPush(s: seq<Entry>, e: Entry)
    requires Distinct(s)
    ensures Take(MAX_ENTRIES, [e] + Without(Take(MAX_ENTRIES, s), e.key)) == Take(MAX_ENTRIES, [e] + Without(s, e.key))
  {
    var n := MAX_ENTRIES;
    if |s| > n {
      var head := Without(s[..n], e.key);
      assert s == s[..n] + s[n..];
      WithoutConcat(s[..n], s[n..], e.key);
      WithoutSize(s[..n], e.key);
      assert ([e] + Without(s, e.key))[..n] == ([e] + head)[..n];
    }
  }

  // ----- the list -----

  class RejectedList {
    var entries: seq<Entry>
    ghost var history: seq<Entry>

    /** The list shows the 25 most recently rejected units, newest first. */
    ghost predicate Valid()
      reads this
    {
      entries == Take(MAX_ENTRIES, NewestFirst(history))
    }

    constructor ()
      ensures Valid() && entries == [] && history == []
    {
      entries, history := [], [];
    }

    /** ipaccess_sign_link_reject; without a peer address the list stays as it is. */
    method Reject(siteId: nat, btsId: nat, peerKnown: bool, ip: string, now: int)
      requires Valid()
      modifies this
      ensures Valid()
      ensures history == if peerKnown then old(history) + [Entry(Key(siteId, btsId, ip), now)] else old(history)
    {
      if !peerKnown {
        return;
      }
      ghost var was := NewestFirst(history);
      NewestDistinct(history);
      var entry := Entry(Key(siteId, btsId, ip), now);
      var pos := 0;
      while pos < |entries| && entries[pos].key != entry.key
        invariant pos <= |entries| && forall i :: 0 <= i < pos ==> entries[i].key != entry.key
      {
        pos := pos + 1;
      }
      if pos < |entries| {
        WithoutIndex(entries, entry.key, pos);
        entries := entries[..pos] + entries[pos + 1..];
      } else {
        WithoutAbsent(entries, entry.key);
      }
      entries := [entry] + entries;
      if |entries| > MAX_ENTRIES {
        entries := entries[..|entries| - 1];
      }
      TakeThenPush(was, entry);
      WithoutSize(Take(MAX_ENTRIES, was), entry.key);
      history := history + [entry];
      assert history[..|history| - 1] == old(history);
    }
  }
}
