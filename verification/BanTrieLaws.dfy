/** What a ban trie answers, compared with a scan of the records it holds; and why its shape is canonical. */
module BanTrieLaws {
  import opened Outcomes
  import opened Addresses
  import opened BanTrie

  // ----- the reference: a scan of every record -----

  /** Banned at that moment: without an expiry for ever, otherwise while the expiry is still to come. */
  predicate InForce(r: Record, now: int) {
    r.expiresAt == None || r.expiresAt.value > now
  }

  ghost predicate Matches(m: map<Prefix, Record>, p: Prefix, bits: seq<bool>, now: int)
    requires |bits| == 32 || |bits| == 128
  {
    && p in m && InForce(m[p], now)
    && p.Valid() && p.v4 == (|bits| == 32) && p.Contains(bits)
  }

  /** The unexpired record with the longest matching prefix, or none. */
  ghost predicate BestMatch(m: map<Prefix, Record>, bits: seq<bool>, now: int, r: Option<Record>)
    requires |bits| == 32 || |bits| == 128
  {
    match r
    case None => forall p :: !Matches(m, p, bits, now)
    case Some(rec) =>
      exists p :: (Matches(m, p, bits, now) && m[p] == rec && (forall q | Matches(m, q, bits, now) :: q.len <= p.len))
  }

  /** There is only one best match: two networks of one length that share an address are the same network. */
  lemma BestMatchUnique(m: map<Prefix, Record>, bits: seq<bool>, now: int, r: Option<Record>, r': Option<Record>)
    requires |bits| == 32 || |bits| == 128
    requires BestMatch(m, bits, now, r) && BestMatch(m, bits, now, r')
    ensures r == r'
  {
    if r.Some? && r'.Some? {
      var p :| Matches(m, p, bits, now) && m[p] == r.value && forall q | Matches(m, q, bits, now) :: q.len <= p.len;
      var q :| Matches(m, q, bits, now) && m[q] == r'.value && forall x | Matches(m, x, bits, now) :: x.len <= q.len;
      SamePrefix(p, q);
    }
  }

  lemma ContainsMeansShared(p: Prefix, n: Prefix, bits: seq<bool>)
    requires p.Valid() && n.Valid() && p.v4 == n.v4 && |bits| == |p.addr|
    requires AtOrBelow(p, n) && p.Contains(bits)
    ensures n.Contains(bits)
    ensures p != n ==> n.len < |bits| && Below(p, n, bits[n.len])
  {
    TakeTake(p.addr, bits, n.len, p.len);
  }

  /** Lookup answers the longest unexpired match; an expired record never shadows a broader live one. */
  lemma {:induction false} LookupIsBestMatch(t: Trie, bits: seq<bool>, now: int)
    requires (|bits| == 32 || |bits| == 128) && WellFormed(t, |bits| == 32)
    ensures BestMatch(Contents(t), bits, now, Lookup(t, bits, now))
  {
    if t.Node? {
      var n, m := t.prefix, Contents(t);
      ContentsBelow(t, |bits| == 32);
      forall p | Matches(m, p, bits, now) ensures n.Contains(bits) && (p != n ==> n.len < |bits| && Below(p, n, bits[n.len])) {
        ContainsMeansShared(p, n, bits);
      }
      if n.Contains(bits) {
        if n.len < |bits| {
          var child := if bits[n.len] then t.one else t.zero;
          LookupIsBestMatch(child, bits, now);
          DescendBestMatch(t, child, bits, now);
        } else {
          assert forall p | Matches(m, p, bits, now) :: p == n;
          OwnInContents(t, |bits| == 32);
        }
      }
    }
  }

  lemma OwnInContents(t: Trie, v4: bool)
    requires WellFormed(t, v4) && t.Node?
    ensures t.prefix in Contents(t) <==> t.rec.Some?
    ensures t.rec.Some? ==> Contents(t)[t.prefix] == t.rec.value
    ensures forall k | k in Contents(t.zero) :: k in Contents(t) && Contents(t)[k] == Contents(t.zero)[k]
    ensures forall k | k in Contents(t.one) :: k in Contents(t) && Contents(t)[k] == Contents(t.one)[k]
    ensures forall k | k in Contents(t) && Below(k, t.prefix, false) :: k in Contents(t.zero)
    ensures forall k | k in Contents(t) && Below(k, t.prefix, true) :: k in Contents(t.one)
  {
    ContentsBelow(t, v4);
  }

  /** Below its own record a node's matches are those of the child the address goes to. */
  ghost predicate SameMatches(m: map<Prefix, Record>, c: map<Prefix, Record>, n: Prefix, bits: seq<bool>, now: int)
    requires |bits| == 32 || |bits| == 128
  {
    && (forall p | Matches(m, p, bits, now) && p != n :: Matches(c, p, bits, now) && c[p] == m[p])
    && (forall p | Matches(c, p, bits, now) :: Matches(m, p, bits, now) && c[p] == m[p] && p.len > n.len)
  }

  lemma ChildMatches(t: Trie, child: Trie, bits: seq<bool>, now: int)
    requires (|bits| == 32 || |bits| == 128) && WellFormed(t, |bits| == 32) && t.Node?
    requires t.prefix.Contains(bits) && t.prefix.len < |bits|
    requires child == if bits[t.prefix.len] then t.one else t.zero
    requires forall p | Matches(Contents(t), p, bits, now) && p != t.prefix :: Below(p, t.prefix, bits[t.prefix.len])
    ensures SameMatches(Contents(t), Contents(child), t.prefix, bits, now)
  {
    OwnInContents(t, |bits| == 32);
    ContentsBelow(t, |bits| == 32);
  }

  lemma DeeperIsBest(m: map<Prefix, Record>, c: map<Prefix, Record>, n: Prefix, bits: seq<bool>, now: int, r: Record)
    requires (|bits| == 32 || |bits| == 128) && SameMatches(m, c, n, bits, now) && BestMatch(c, bits, now, Some(r))
    ensures BestMatch(m, bits, now, Some(r))
  {
    var p :| Matches(c, p, bits, now) && c[p] == r && forall q | Matches(c, q, bits, now) :: q.len <= p.len;
    forall q | Matches(m, q, bits, now) ensures q.len <= p.len {
      assert q != n ==> Matches(c, q, bits, now);
    }
  }

  lemma OwnIsBest(m: map<Prefix, Record>, c: map<Prefix, Record>, n: Prefix, bits: seq<bool>, now: int)
    requires (|bits| == 32 || |bits| == 128) && SameMatches(m, c, n, bits, now) && BestMatch(c, bits, now, None)
    ensures BestMatch(m, bits, now, if Matches(m, n, bits, now) then Some(m[n]) else None)
  {}

  lemma DescendBestMatch(t: Trie, child: Trie, bits: seq<bool>, now: int)
    requires (|bits| == 32 || |bits| == 128) && WellFormed(t, |bits| == 32) && t.Node?
    requires t.prefix.Contains(bits) && t.prefix.len < |bits|
    requires child == if bits[t.prefix.len] then t.one else t.zero
    requires BestMatch(Contents(child), bits, now, Lookup(child, bits, now))
    requires forall p | Matches(Contents(t), p, bits, now) && p != t.prefix :: Below(p, t.prefix, bits[t.prefix.len])
    ensures BestMatch(Contents(t), bits, now, Lookup(t, bits, now))
  {
    var n, m, c := t.prefix, Contents(t), Contents(child);
    ChildMatches(t, child, bits, now);
    var deeper := Lookup(child, bits, now);
    if deeper.Some? {
      DeeperIsBest(m, c, n, bits, now, deeper.value);
    } else {
      OwnIsBest(m, c, n, bits, now);
      OwnInContents(t, |bits| == 32);
    }
  }

  // ----- canonical shape -----

  /** On each side of a fork there is a record. */
  lemma {:induction false} NodeHasRecord(t: Trie, v4: bool) returns (k: Prefix)
    requires WellFormed(t, v4) && t.Node?
    ensures k in Contents(t) && AtOrBelow(k, t.prefix)
  {
    ContentsBelow(t, v4);
    OwnInContents(t, v4);
    if t.rec.Some? {
      k := t.prefix;
    } else {
      k := NodeHasRecord(t.zero, v4);
    }
  }

  /** The root's prefix is determined by the records: nothing longer covers them all. */
  lemma RootIsLongestCommon(t: Trie, q: Prefix, v4: bool)
    requires WellFormed(t, v4) && t.Node? && q.Valid() && q.v4 == v4
    requires forall k | k in Contents(t) :: AtOrBelow(k, q)
    ensures q.len <= t.prefix.len
  {
    var n := t.prefix;
    ContentsBelow(t, v4);
    OwnInContents(t, v4);
    if t.rec.None? && q.len > n.len {
      var a := NodeHasRecord(t.zero, v4);
      var b := NodeHasRecord(t.one, v4);
      assert a.addr[n.len] != b.addr[n.len];
      AgreeAt(a, q, n.len);
      AgreeAt(b, q, n.len);
    }
  }

  lemma AgreeAt(k: Prefix, q: Prefix, i: nat)
    requires AtOrBelow(k, q) && q.Valid() && i < q.len
    ensures i < |k.addr| && k.addr[i] == q.addr[i]
  {
    if k != q {
      TakeTake(k.addr, q.addr, q.len, q.len);
    }
  }

  lemma SameRoot(s: Trie, t: Trie, v4: bool)
    requires WellFormed(s, v4) && WellFormed(t, v4) && s.Node? && t.Node?
    requires Contents(s) == Contents(t)
    ensures s.prefix == t.prefix
  {
    ContentsBelow(s, v4);
    ContentsBelow(t, v4);
    RootIsLongestCommon(s, t.prefix, v4);
    RootIsLongestCommon(t, s.prefix, v4);
    var k := NodeHasRecord(s, v4);
    assert k.addr[..s.prefix.len] == s.prefix.addr[..s.prefix.len];
    assert k.addr[..t.prefix.len] == t.prefix.addr[..t.prefix.len];
    SamePrefix(s.prefix, t.prefix);
  }

  lemma SideContents(t: Trie, v4: bool)
    requires WellFormed(t, v4) && t.Node?
    ensures Contents(t.zero) == map k | k in Contents(t) && Below(k, t.prefix, false) :: Contents(t)[k]
    ensures Contents(t.one) == map k | k in Contents(t) && Below(k, t.prefix, true) :: Contents(t)[k]
  {
    ContentsBelow(t, v4);
    OwnInContents(t, v4);
  }

  /** Two tries that hold the same records are the same trie. */
  lemma {:induction false} Canonical(s: Trie, t: Trie, v4: bool)
    requires WellFormed(s, v4) && WellFormed(t, v4)
    requires Contents(s) == Contents(t)
    ensures s == t
  {
    if s.Node? && t.Node? {
      SameRoot(s, t, v4);
      OwnInContents(s, v4);
      OwnInContents(t, v4);
      SideContents(s, v4);
      SideContents(t, v4);
      Canonical(s.zero, t.zero, v4);
      Canonical(s.one, t.one, v4);
    } else if s.Node? {
      var k := NodeHasRecord(s, v4);
    } else if t.Node? {
      var k := NodeHasRecord(t, v4);
    }
  }

  /** Deleting a just-inserted, previously absent prefix restores the same trie. */
  lemma InsertThenDelete(t: Trie, p: Prefix, r: Record)
    requires WellFormed(t, p.v4) && p.Valid() && p !in Contents(t)
    ensures WellFormed(Insert(t, p, r), p.v4) && Delete(Insert(t, p, r), p) == t
  {
    InsertWellFormed(t, p, r);
    InsertContents(t, p, r);
    DeleteWellFormed(Insert(t, p, r), p);
    DeleteContents(Insert(t, p, r), p);
    assert Contents(t)[p := r] - {p} == Contents(t);
    Canonical(Delete(Insert(t, p, r), p), t, p.v4);
  }

  lemma DisjointSize(own: map<Prefix, Record>, zero: map<Prefix, Record>, one: map<Prefix, Record>)
    requires own.Keys !! zero.Keys !! one.Keys
    ensures |own + zero + one| == |own| + |zero| + |one|
  {
    assert (own + zero + one).Keys == own.Keys + zero.Keys + one.Keys;
    assert |own.Keys + zero.Keys + one.Keys| == |own.Keys| + |zero.Keys| + |one.Keys|;
  }

  lemma SidesDisjoint(t: Trie, v4: bool)
    requires WellFormed(t, v4) && t.Node?
    ensures |Contents(t)| == |Own(t)| + |Contents(t.zero)| + |Contents(t.one)|
  {
    ContentsBelow(t, v4);
    DisjointSize(Own(t), Contents(t.zero), Contents(t.one));
  }

  /** Glue never outnumbers the records: at most 2*records - 1 nodes. */
  lemma {:induction false} NodeBound(t: Trie, v4: bool)
    requires WellFormed(t, v4) && t.Node?
    ensures 1 <= |Contents(t)| && Nodes(t) <= 2 * |Contents(t)| - 1
  {
    SidesDisjoint(t, v4);
    if t.zero.Node? {
      NodeBound(t.zero, v4);
    }
    if t.one.Node? {
      NodeBound(t.one, v4);
    }
  }

  ghost function ActiveKeys(m: map<Prefix, Record>, now: int): set<Prefix> {
    set p | p in m && InForce(m[p], now)
  }

  lemma ActiveJoin(a: map<Prefix, Record>, b: map<Prefix, Record>, now: int)
    requires a.Keys !! b.Keys
    ensures |ActiveKeys(a + b, now)| == |ActiveKeys(a, now)| + |ActiveKeys(b, now)|
  {
    assert ActiveKeys(a + b, now) == ActiveKeys(a, now) + ActiveKeys(b, now);
  }

  lemma ActiveOwn(t: Trie, now: int)
    requires t.Node?
    ensures |ActiveKeys(Own(t), now)| == if t.rec.Some? && t.rec.value.Active(now) then 1 else 0
  {
    assert ActiveKeys(Own(t), now) == if t.rec.Some? && t.rec.value.Active(now) then {t.prefix} else {};
  }

  /** The walk counts every unexpired record once. */
  lemma {:induction false} CountActiveIsExact(t: Trie, v4: bool, now: int)
    requires WellFormed(t, v4)
    ensures CountActive(t, now) == |ActiveKeys(Contents(t), now)|
  {
    if t.Node? {
      CountActiveIsExact(t.zero, v4, now);
      CountActiveIsExact(t.one, v4, now);
      ContentsBelow(t, v4);
      ActiveJoin(Own(t), Contents(t.zero), now);
      ActiveJoin(Own(t) + Contents(t.zero), Contents(t.one), now);
      ActiveOwn(t, now);
    } else {
      assert ActiveKeys(Contents(t), now) == {};
    }
  }
}
