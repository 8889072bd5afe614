/** The patricia trie of gawk-server/moderation/set.go as a value: what each operation returns, and what it means. */
module BanTrie {
  import opened Outcomes
  import opened Addresses

  /** An expiry is a time; None means permanent. */
  datatype Record = Record(target: Target, expiresAt: Option<int>, reason: string) {
    /** In force at `now`; an expiry exactly at now has passed. */
    predicate Active(now: int) {
      expiresAt.None? || now < expiresAt.value
    }
  }

  datatype Target = BroadcastID(id: string) | IP(text: IpText) | Unknown

  datatype Trie = Empty | Node(prefix: Prefix, rec: Option<Record>, zero: Trie, one: Trie)

  // ----- the operations -----

  predicate ContainsPrefix(q: Prefix, p: Prefix)
    requires q.Valid() && p.Valid() && q.v4 == p.v4
  {
    q.len < p.len && q.Contains(p.addr)
  }

  function CommonLen(a: seq<bool>, b: seq<bool>, i: nat): (n: nat)
    requires |a| == |b| && i <= |a|
    ensures i <= n <= |a|
    ensures forall k | i <= k < n :: a[k] == b[k]
    ensures n < |a| ==> a[n] != b[n]
    decreases |a| - i
  {
    if i == |a| || a[i] != b[i] then i else CommonLen(a, b, i + 1)
  }

  function Min3(a: nat, b: nat, c: nat): nat {
    var m := if a > b then b else a;
    if m > c then c else m
  }

  function GluePrefix(n: Prefix, p: Prefix): (g: Prefix)
    requires n.Valid() && p.Valid() && n.v4 == p.v4
    ensures g.Valid() && g.v4 == p.v4
  {
    var cl := Min3(CommonLen(n.addr, p.addr, 0), n.len, p.len);
    Prefix(p.v4, Mask(p.addr, cl), cl)
  }

  function Fork(prefix: Prefix, rec: Option<Record>, bit: bool, onBit: Trie, other: Trie): Trie {
    if bit then Node(prefix, rec, other, onBit) else Node(prefix, rec, onBit, other)
  }

  function Insert(t: Trie, p: Prefix, r: Record): Trie
    requires WellFormed(t, p.v4) && p.Valid()
  {
    match t
    case Empty => Node(p, Some(r), Empty, Empty)
    case Node(n, rec, zero, one) =>
      if n == p then Node(n, Some(r), zero, one)
      else if ContainsPrefix(n, p) then
        if p.addr[n.len] then Node(n, rec, zero, Insert(one, p, r)) else Node(n, rec, Insert(zero, p, r), one)
      else if ContainsPrefix(p, n) then Fork(p, Some(r), n.addr[p.len], t, Empty)
      else
        var g := GluePrefix(n, p);
        GlueSplits(n, p);
        Fork(g, None, n.addr[g.len], t, Node(p, Some(r), Empty, Empty))
  }

  function Prune(t: Trie): Trie {
    if t.Node? && t.rec.None? && t.zero.Empty? then t.one
    else if t.Node? && t.rec.None? && t.one.Empty? then t.zero
    else t
  }

  function Delete(t: Trie, p: Prefix): Trie
    requires WellFormed(t, p.v4) && p.Valid()
  {
    match t
    case Empty => Empty
    case Node(n, rec, zero, one) =>
      if n == p then Prune(Node(n, None, zero, one))
      else if ContainsPrefix(n, p) then
        if p.addr[n.len] then Prune(Node(n, rec, zero, Delete(one, p)))
        else Prune(Node(n, rec, Delete(zero, p), one))
      else t
  }

  function Lookup(t: Trie, bits: seq<bool>, now: int): Option<Record>
    requires WellFormed(t, |bits| == 32) && (|bits| == 32 || |bits| == 128)
  {
    match t
    case Empty => None
    case Node(n, rec, zero, one) =>
      if !n.Contains(bits) then None
      else
        var deeper := if n.len >= |bits| then None
                      else if bits[n.len] then Lookup(one, bits, now) else Lookup(zero, bits, now);
        if deeper.Some? then deeper
        else if rec.Some? && rec.value.Active(now) then rec
        else None
  }

  function CountActive(t: Trie, now: int): nat {
    match t
    case Empty => 0
    case Node(_, rec, zero, one) =>
      (if rec.Some? && rec.value.Active(now) then 1 else 0) + CountActive(zero, now) + CountActive(one, now)
  }

  function Nodes(t: Trie): nat {
    match t
    case Empty => 0
    case Node(_, _, zero, one) => 1 + Nodes(zero) + Nodes(one)
  }

  // ----- the invariant -----

  /** c lies strictly below q, on the side of `bit`. */
  ghost predicate Below(c: Prefix, q: Prefix, bit: bool) {
    && c.Valid() && q.Valid() && c.v4 == q.v4
    && q.len < c.len && c.addr[..q.len] == q.addr[..q.len] && c.addr[q.len] == bit
  }

  ghost predicate ChildOk(c: Trie, q: Prefix, bit: bool) {
    c.Node? ==> Below(c.prefix, q, bit)
  }

  /** Children strictly extend their parent at the indexed bit, and a node without a record forks. */
  ghost predicate WellFormed(t: Trie, v4: bool) {
    t.Node? ==>
      && t.prefix.Valid() && t.prefix.v4 == v4
      && (t.rec.None? ==> t.zero.Node? && t.one.Node?)
      && ChildOk(t.zero, t.prefix, false) && ChildOk(t.one, t.prefix, true)
      && WellFormed(t.zero, v4) && WellFormed(t.one, v4)
  }

  function Own(t: Trie): map<Prefix, Record>
    requires t.Node?
  {
    if t.rec.Some? then map[t.prefix := t.rec.value] else map[]
  }

  /** The records the trie holds. */
  function Contents(t: Trie): map<Prefix, Record> {
    if t.Empty? then map[] else Own(t) + Contents(t.zero) + Contents(t.one)
  }

  // ----- prefixes -----

  lemma SamePrefix(p: Prefix, q: Prefix)
    requires p.Valid() && q.Valid() && p.v4 == q.v4 && p.len == q.len && p.addr[..p.len] == q.addr[..q.len]
    ensures p == q
  {
    forall i | 0 <= i < |p.addr| ensures p.addr[i] == q.addr[i] {
      if i < p.len {
        assert p.addr[..p.len][i] == q.addr[..q.len][i];
      }
    }
  }

  lemma TakeTake(a: seq<bool>, b: seq<bool>, m: nat, n: nat)
    requires m <= n <= |a| && n <= |b| && a[..n] == b[..n]
    ensures a[..m] == b[..m] && forall k | 0 <= k < n :: a[k] == b[k]
  {
    assert a[..m] == a[..n][..m] && b[..m] == b[..n][..m];
    forall k | 0 <= k < n ensures a[k] == b[k] {
      assert a[k] == a[..n][k] && b[k] == b[..n][k];
    }
  }

  /** When neither prefix contains the other, the glue is shorter than both and they leave it on different sides. */
  lemma GlueSplits(n: Prefix, p: Prefix)
    requires n.Valid() && p.Valid() && n.v4 == p.v4 && n != p
    requires !ContainsPrefix(n, p) && !ContainsPrefix(p, n)
    ensures var g := GluePrefix(n, p);
            g.len < n.len && g.len < p.len && n.addr[g.len] != p.addr[g.len] &&
            Below(n, g, n.addr[g.len]) && Below(p, g, p.addr[g.len])
  {
    var c := CommonLen(n.addr, p.addr, 0);
    var g := GluePrefix(n, p);
    assert n.addr[..c] == p.addr[..c];
    if c >= n.len && n.len <= p.len {
      TakeTake(n.addr, p.addr, n.len, c);
      if n.len == p.len {
        SamePrefix(n, p);
      }
      assert false;
    }
    if c >= p.len && p.len <= n.len {
      TakeTake(n.addr, p.addr, p.len, c);
      if n.len == p.len {
        SamePrefix(n, p);
      }
      assert false;
    }
    assert g.len == c;
    assert g.addr[..c] == p.addr[..c];
  }

  /** Below is inherited by everything further down. */
  lemma BelowBelow(k: Prefix, c: Prefix, q: Prefix, bit: bool)
    requires Below(c, q, bit) && AtOrBelow(k, c)
    ensures Below(k, q, bit)
  {
    if k != c {
      TakeTake(k.addr, c.addr, q.len, c.len);
    }
  }

  // ----- contents -----

  /** k is q or lies somewhere below it. */
  ghost predicate AtOrBelow(k: Prefix, q: Prefix) {
    k == q || Below(k, q, false) || Below(k, q, true)
  }

  lemma {:induction false} ContentsBelow(t: Trie, v4: bool)
    requires WellFormed(t, v4) && t.Node?
    ensures forall k | k in Contents(t) :: AtOrBelow(k, t.prefix)
    ensures forall k | k in Contents(t.zero) :: Below(k, t.prefix, false)
    ensures forall k | k in Contents(t.one) :: Below(k, t.prefix, true)
    ensures Contents(t).Keys == Own(t).Keys + Contents(t.zero).Keys + Contents(t.one).Keys
  {
    forall k | k in Contents(t.zero) ensures Below(k, t.prefix, false) {
      ContentsBelow(t.zero, v4);
      BelowBelow(k, t.zero.prefix, t.prefix, false);
    }
    forall k | k in Contents(t.one) ensures Below(k, t.prefix, true) {
      ContentsBelow(t.one, v4);
      BelowBelow(k, t.one.prefix, t.prefix, true);
    }
  }

  // ----- insertion -----

  lemma GlueBelow(n: Prefix, p: Prefix, q: Prefix, bit: bool)
    requires n.Valid() && p.Valid() && n.v4 == p.v4 && Below(n, q, bit) && Below(p, q, bit)
    ensures Below(GluePrefix(n, p), q, bit)
  {
    var c := CommonLen(n.addr, p.addr, 0);
    assert c > q.len by {
      TakeTake(n.addr, p.addr, q.len, q.len);
    }
    var g := GluePrefix(n, p);
    assert g.addr[..g.len] == p.addr[..g.len];
    TakeTake(g.addr, p.addr, q.len, g.len);
  }

  ghost predicate Keeps(t: Trie, p: Prefix, result: Trie) {
    forall q, bit | Below(p, q, bit) && ChildOk(t, q, bit) :: ChildOk(result, q, bit)
  }

  lemma InsertGlue(t: Trie, p: Prefix, r: Record)
    requires WellFormed(t, p.v4) && p.Valid() && t.Node? && t.prefix != p
    requires !ContainsPrefix(t.prefix, p) && !ContainsPrefix(p, t.prefix)
    ensures WellFormed(Insert(t, p, r), p.v4) && Keeps(t, p, Insert(t, p, r))
  {
    GlueSplits(t.prefix, p);
    forall q, bit | Below(p, q, bit) && ChildOk(t, q, bit) ensures ChildOk(Insert(t, p, r), q, bit) {
      GlueBelow(t.prefix, p, q, bit);
    }
  }

  lemma {:induction false} InsertWellFormed(t: Trie, p: Prefix, r: Record)
    requires WellFormed(t, p.v4) && p.Valid()
    ensures WellFormed(Insert(t, p, r), p.v4) && Insert(t, p, r).Node?
    ensures Keeps(t, p, Insert(t, p, r))
  {
    if t.Node? && t.prefix != p {
      var n := t.prefix;
      if ContainsPrefix(n, p) {
        var child := if p.addr[n.len] then t.one else t.zero;
        InsertWellFormed(child, p, r);
        assert Below(p, n, p.addr[n.len]);
        assert ChildOk(Insert(child, p, r), n, p.addr[n.len]);
      } else if !ContainsPrefix(p, n) {
        InsertGlue(t, p, r);
      }
    }
  }

  lemma UpdateOwn(own: map<Prefix, Record>, zero: map<Prefix, Record>, one: map<Prefix, Record>, p: Prefix, r: Record)
    requires p !in zero && p !in one
    ensures own[p := r] + zero + one == (own + zero + one)[p := r]
  {}

  lemma UpdateZero(own: map<Prefix, Record>, zero: map<Prefix, Record>, one: map<Prefix, Record>, p: Prefix, r: Record)
    requires p !in one
    ensures own + zero[p := r] + one == (own + zero + one)[p := r]
  {}

  lemma UpdateOne(own: map<Prefix, Record>, zero: map<Prefix, Record>, one: map<Prefix, Record>, p: Prefix, r: Record)
    ensures own + zero + one[p := r] == (own + zero + one)[p := r]
  {}

  lemma AbsentOutside(t: Trie, p: Prefix)
    requires WellFormed(t, p.v4) && p.Valid()
    requires t.Node? ==> t.prefix != p && !ContainsPrefix(t.prefix, p)
    ensures p !in Contents(t)
  {
    if t.Node? {
      ContentsBelow(t, p.v4);
    }
  }

  /** Inserting into the trie is updating the map. */
  lemma {:induction false} InsertContents(t: Trie, p: Prefix, r: Record)
    requires WellFormed(t, p.v4) && p.Valid()
    ensures Contents(Insert(t, p, r)) == Contents(t)[p := r]
  {
    if t.Node? {
      var n := t.prefix;
      if n == p {
        InsertHere(t, p, r);
      } else if ContainsPrefix(n, p) {
        ContentsBelow(t, p.v4);
        if p.addr[n.len] {
          InsertContents(t.one, p, r);
          UpdateOne(Own(t), Contents(t.zero), Contents(t.one), p, r);
        } else {
          InsertContents(t.zero, p, r);
          UpdateZero(Own(t), Contents(t.zero), Contents(t.one), p, r);
        }
      } else if ContainsPrefix(p, n) {
        InsertParent(t, p, r);
      } else {
        InsertBeside(t, p, r);
      }
    }
  }

  lemma InsertHere(t: Trie, p: Prefix, r: Record)
    requires WellFormed(t, p.v4) && p.Valid() && t.Node? && t.prefix == p
    ensures Contents(Insert(t, p, r)) == Contents(t)[p := r]
  {
    ContentsBelow(t, p.v4);
    UpdateOwn(Own(t), Contents(t.zero), Contents(t.one), p, r);
    ReplaceOwn(t, p, r);
  }

  lemma ReplaceOwn(t: Trie, p: Prefix, r: Record)
    requires t.Node? && t.prefix == p
    ensures map[p := r] == Own(t)[p := r]
  {}

  lemma AddFresh(m: map<Prefix, Record>, p: Prefix, r: Record)
    requires p !in m
    ensures map[p := r] + m + map[] == m[p := r]
    ensures map[] + m + map[p := r] == m[p := r]
    ensures map[] + map[p := r] + m == m[p := r]
    ensures map[p := r] + map[] + m == m[p := r]
  {}

  lemma ContentsOfNode(q: Prefix, rec: Option<Record>, zero: Trie, one: Trie)
    ensures Contents(Node(q, rec, zero, one))
            == (if rec.Some? then map[q := rec.value] else map[]) + Contents(zero) + Contents(one)
  {}

  lemma ContentsOfLeaf(p: Prefix, r: Record)
    ensures Contents(Node(p, Some(r), Empty, Empty)) == map[p := r]
  {
    ContentsOfNode(p, Some(r), Empty, Empty);
  }

  lemma InsertParent(t: Trie, p: Prefix, r: Record)
    requires WellFormed(t, p.v4) && p.Valid() && t.Node? && t.prefix != p
    requires !ContainsPrefix(t.prefix, p) && ContainsPrefix(p, t.prefix)
    ensures Contents(Insert(t, p, r)) == Contents(t)[p := r]
  {
    AbsentOutside(t, p);
    AddFresh(Contents(t), p, r);
    ContentsOfNode(p, Some(r), t, Empty);
    ContentsOfNode(p, Some(r), Empty, t);
  }

  lemma InsertBeside(t: Trie, p: Prefix, r: Record)
    requires WellFormed(t, p.v4) && p.Valid() && t.Node? && t.prefix != p
    requires !ContainsPrefix(t.prefix, p) && !ContainsPrefix(p, t.prefix)
    ensures Contents(Insert(t, p, r)) == Contents(t)[p := r]
  {
    AbsentOutside(t, p);
    AddFresh(Contents(t), p, r);
    GlueSplits(t.prefix, p);
    var leaf, g := Node(p, Some(r), Empty, Empty), GluePrefix(t.prefix, p);
    ContentsOfLeaf(p, r);
    ContentsOfNode(g, None, t, leaf);
    ContentsOfNode(g, None, leaf, t);
  }

  // ----- deletion -----

  lemma {:induction false} DeleteWellFormed(t: Trie, p: Prefix)
    requires WellFormed(t, p.v4) && p.Valid()
    ensures WellFormed(Delete(t, p), p.v4)
    ensures forall q, bit | ChildOk(t, q, bit) :: ChildOk(Delete(t, p), q, bit)
  {
    if t.Node? {
      var n := t.prefix;
      if n != p && ContainsPrefix(n, p) {
        if p.addr[n.len] {
          DeleteWellFormed(t.one, p);
          assert ChildOk(Delete(t.one, p), n, true);
        } else {
          DeleteWellFormed(t.zero, p);
          assert ChildOk(Delete(t.zero, p), n, false);
        }
      }
      forall q, bit | ChildOk(t, q, bit) ensures ChildOk(Delete(t, p), q, bit) {
        DeleteStaysBelow(t, p, q, bit);
      }
    }
  }

  lemma {:induction false} DeleteStaysBelow(t: Trie, p: Prefix, q: Prefix, bit: bool)
    requires WellFormed(t, p.v4) && p.Valid() && ChildOk(t, q, bit)
    ensures ChildOk(Delete(t, p), q, bit)
  {
    if t.Node? {
      var n := t.prefix;
      forall c, side | Below(c, n, side) ensures Below(c, q, bit) {
        BelowBelow(c, n, q, bit);
      }
      if n != p && ContainsPrefix(n, p) {
        if p.addr[n.len] {
          DeleteStaysBelow(t.one, p, q, bit);
        } else {
          DeleteStaysBelow(t.zero, p, q, bit);
        }
      }
    }
  }

  lemma PruneContents(t: Trie)
    ensures Contents(Prune(t)) == Contents(t)
  {}

  lemma JoinRemove(own: map<Prefix, Record>, zero: map<Prefix, Record>, one: map<Prefix, Record>, p: Prefix)
    ensures (own + zero + one) - {p} == (own - {p}) + (zero - {p}) + (one - {p})
    ensures p !in own ==> own - {p} == own
    ensures p !in zero ==> zero - {p} == zero
    ensures p !in one ==> one - {p} == one
  {}

  /** Deleting from the trie is removing the key, present or not. */
  lemma {:induction false} DeleteContents(t: Trie, p: Prefix)
    requires WellFormed(t, p.v4) && p.Valid()
    ensures Contents(Delete(t, p)) == Contents(t) - {p}
  {
    if t.Node? {
      var n := t.prefix;
      ContentsBelow(t, p.v4);
      JoinRemove(Own(t), Contents(t.zero), Contents(t.one), p);
      if n == p {
        PruneContents(Node(n, None, t.zero, t.one));
        assert Own(t) - {p} == map[];
      } else if ContainsPrefix(n, p) {
        if p.addr[n.len] {
          DeleteContents(t.one, p);
          PruneContents(Node(n, t.rec, t.zero, Delete(t.one, p)));
        } else {
          DeleteContents(t.zero, p);
          PruneContents(Node(n, t.rec, Delete(t.zero, p), t.one));
        }
      } else {
        AbsentOutside(t, p);
      }
    }
  }
}
