/** The in-memory ban list of gawk-server/moderation/set.go, and what every run of changes leaves it answering. */
module BanSet {
  import opened Outcomes
  import opened Addresses
  import opened BanTrie
  import opened BanTrieLaws
  import opened TrieNodes

  // ----- targets -----

  const ID_LENGTH := 6
  const ID_ALPHABET := "23456789ABCDEFGHJKMNPQRSTUVWXYZ"

  /** strings.ToUpper as far as the alphabet can tell: the long s is the one other character that maps into it. */
  function Upper(c: char): char {
    if 'a' <= c <= 'z' then c - 'a' + 'A' else if c == '\U{17F}' then 'S' else c
  }

  /** A broadcast ID, uppercased and checked against the alphabet. */
  function NormalizeID(id: string): (r: Option<string>)
    ensures r.Some? ==> |r.value| == ID_LENGTH && forall c | c in r.value :: c in ID_ALPHABET
  {
    var up := seq(|id|, (i: nat) requires i < |id| => Upper(id[i]));
    if |up| == ID_LENGTH && forall c | c in up :: c in ID_ALPHABET then Some(up) else None
  }

  ghost predicate TargetOk(t: Target) {
    t.IP? ==> t.text.Valid()
  }

  function NormalizeTarget(t: Target): (r: Option<Target>)
    requires TargetOk(t)
    ensures r.Some? ==> TargetOk(r.value) && r.value.IP? == t.IP? && !r.value.Unknown?
  {
    match t
    case BroadcastID(id) => (match NormalizeID(id) case None => None case Some(up) => Some(BroadcastID(up)))
    case IP(text) => (match ParsePrefix(text) case None => None case Some(p) => Some(IP(Print(p))))
    case Unknown => None
  }

  /** Normalizing twice is normalizing once: the canonical form is its own canonical form. */
  lemma NormalizeIdempotent(t: Target)
    requires TargetOk(t) && NormalizeTarget(t).Some?
    ensures NormalizeTarget(NormalizeTarget(t).value) == NormalizeTarget(t)
  {
    match t
    case BroadcastID(id) =>
      UpperIsFixed(NormalizeID(id).value);
    case IP(text) =>
      ParsePrintRoundTrip(text);
    case Unknown =>
  }

  lemma UpperIsFixed(up: string)
    requires |up| == ID_LENGTH && forall c | c in up :: c in ID_ALPHABET
    ensures NormalizeID(up) == Some(up)
  {
    assert seq(|up|, (i: nat) requires i < |up| => Upper(up[i])) == up by {
      forall i: nat | i < |up| ensures Upper(up[i]) == up[i] {
        assert up[i] in up;
      }
    }
  }

  // ----- the ban list as maps, last write wins -----

  datatype BanList = BanList(ids: map<string, Record>, v4: map<Prefix, Record>, v6: map<Prefix, Record>)

  const NO_BANS := BanList(map[], map[], map[])

  ghost predicate RecordOk(r: Record) {
    TargetOk(r.target)
  }

  function PrefixOf(t: Target): (p: Prefix)
    requires TargetOk(t) && t.IP? && !t.text.Malformed?
    ensures p.Valid()
  {
    ParsePrefix(t.text).value
  }

  function Put(b: BanList, r: Record): BanList
    requires RecordOk(r)
  {
    match NormalizeTarget(r.target)
    case None => b
    case Some(t) =>
      var norm := r.(target := t);
      if t.BroadcastID? then b.(ids := b.ids[t.id := norm])
      else
        var p := PrefixOf(r.target);
        if p.v4 then b.(v4 := b.v4[p := norm]) else b.(v6 := b.v6[p := norm])
  }

  function PutAll(b: BanList, all: seq<Record>): BanList
    requires forall r | r in all :: RecordOk(r)
  {
    if all == [] then b else Put(PutAll(b, all[..|all| - 1]), all[|all| - 1])
  }

  function Drop(b: BanList, t: Target): BanList
    requires TargetOk(t)
  {
    match NormalizeTarget(t)
    case None => b
    case Some(n) =>
      if n.BroadcastID? then b.(ids := b.ids - {n.id})
      else
        var p := PrefixOf(t);
        if p.v4 then b.(v4 := b.v4 - {p}) else b.(v6 := b.v6 - {p})
  }

  /** The most specific ban in force against an address. */
  ghost predicate BestBan(b: BanList, ip: Addr, now: int, r: Option<Record>)
    requires ip.Valid()
  {
    var c := CanonicalAddr(ip);
    if c.NoAddr? then r.None? else BestMatch(if c.V4? then b.v4 else b.v6, c.bits, now, r)
  }

  // ----- the list in memory -----

  method InsertInto(root: TrieNode?, p: Prefix, r: Record) returns (m: TrieNode?)
    requires p.Valid() && Sound(root, p.v4)
    modifies Footprint(root)
    ensures Sound(m, p.v4) && Contents(Tree(m)) == old(Contents(Tree(root)))[p := r]
    ensures fresh(Footprint(m) - old(Footprint(root)))
  {
    InsertContents(Tree(root), p, r);
    InsertWellFormed(Tree(root), p, r);
    m := TrieInsert(root, p, r);
  }

  method DeleteFrom(root: TrieNode?, p: Prefix) returns (m: TrieNode?)
    requires p.Valid() && Sound(root, p.v4)
    modifies Footprint(root)
    ensures Sound(m, p.v4) && Contents(Tree(m)) == old(Contents(Tree(root))) - {p}
    ensures Footprint(m) <= old(Footprint(root))
  {
    DeleteContents(Tree(root), p);
    DeleteWellFormed(Tree(root), p);
    m := TrieDelete(root, p);
  }

  /** Two lists that hold the same bans are the same tries, whatever history built them. */
  lemma SameBansSameShape(s: Set, t: Set)
    requires s.Valid() && t.Valid() && s.Bans() == t.Bans()
    ensures Tree(s.root4) == Tree(t.root4) && Tree(s.root6) == Tree(t.root6)
  {
    Canonical(Tree(s.root4), Tree(t.root4), true);
    Canonical(Tree(s.root6), Tree(t.root6), false);
  }

  class Set {
    var ids: map<string, Record>
    var root4: TrieNode?
    var root6: TrieNode?

    ghost predicate Valid()
      reads this, root4, root6, Footprint(root4), Footprint(root6)
    {
      && Sound(root4, true) && Sound(root6, false)
      && Footprint(root4) !! Footprint(root6)
    }

    ghost function Bans(): BanList
      reads this, root4, root6
    {
      BanList(ids, Contents(Tree(root4)), Contents(Tree(root6)))
    }

    constructor ()
      ensures Valid() && Bans() == NO_BANS
      ensures fresh(Footprint(root4)) && fresh(Footprint(root6))
    {
      ids := map[];
      root4, root6 := null, null;
    }

    method Upsert(r: Record) returns (ok: bool)
      requires Valid() && RecordOk(r)
      modifies this, Footprint(root4), Footprint(root6)
      ensures Valid()
      ensures ok == NormalizeTarget(r.target).Some?
      ensures Bans() == Put(old(Bans()), r)
      ensures fresh(Footprint(root4) - old(Footprint(root4))) && fresh(Footprint(root6) - old(Footprint(root6)))
    {
      var t := NormalizeTarget(r.target);
      if t.None? {
        return false;
      }
      var norm := r.(target := t.value);
      if t.value.BroadcastID? {
        ids := ids[t.value.id := norm];
      } else {
        NormalizeIdempotent(r.target);
        var p := PrefixOf(t.value);
        if p.v4 {
          root4 := InsertInto(root4, p, norm);
        } else {
          root6 := InsertInto(root6, p, norm);
        }
      }
      ok := true;
    }

    /** Records that do not normalize are dropped. */
    method Replace(all: seq<Record>)
      requires Valid() && forall r | r in all :: RecordOk(r)
      modifies this
      ensures Valid()
      ensures Bans() == PutAll(NO_BANS, all)
      ensures fresh(Footprint(root4)) && fresh(Footprint(root6))
    {
      var next := Build(all);
      ids, root4, root6 := next.ids, next.root4, next.root6;
    }

    method Remove(t: Target) returns (ok: bool)
      requires Valid() && TargetOk(t)
      modifies this, Footprint(root4), Footprint(root6)
      ensures Valid()
      ensures ok == NormalizeTarget(t).Some?
      ensures Bans() == Drop(old(Bans()), t)
      ensures Footprint(root4) <= old(Footprint(root4)) && Footprint(root6) <= old(Footprint(root6))
    {
      var n := NormalizeTarget(t);
      if n.None? {
        return false;
      }
      if n.value.BroadcastID? {
        ids := ids - {n.value.id};
      } else {
        NormalizeIdempotent(t);
        var p := PrefixOf(n.value);
        if p.v4 {
          root4 := DeleteFrom(root4, p);
        } else {
          root6 := DeleteFrom(root6, p);
        }
      }
      ok := true;
    }

    method BannedID(normID: string, now: int) returns (r: Option<Record>)
      ensures r == if normID in ids && InForce(ids[normID], now) then Some(ids[normID]) else None
    {
      if normID !in ids || !ids[normID].Active(now) {
        return None;
      }
      return Some(ids[normID]);
    }

    method BannedIP(ip: Addr, now: int) returns (r: Option<Record>)
      requires Valid() && ip.Valid()
      ensures BestBan(Bans(), ip, now, r)
    {
      if ip.NoAddr? {
        return None;
      }
      var c := CanonicalAddr(ip);
      var root := root6;
      if c.V4? {
        root := root4;
      }
      r := TrieLookup(root, c.bits, now);
    }

    /** The unexpired records of each kind. */
    method ActiveCounts(now: int) returns (idBans: nat, ipBans: nat)
      requires Valid()
      ensures idBans == |ActiveIDs(Bans().ids, Bans().ids.Keys, now)|
      ensures ipBans == |ActiveKeys(Bans().v4, now)| + |ActiveKeys(Bans().v6, now)|
    {
      idBans := CountIDs(ids, now);
      var a := CountNodes(root4, true, now);
      var b := CountNodes(root6, false, now);
      ipBans := a + b;
    }
  }

  /** The ID map is walked in any order. */
  method CountIDs(ids: map<string, Record>, now: int) returns (count: nat)
    ensures count == |ActiveIDs(ids, ids.Keys, now)|
  {
    count := 0;
    var left := ids.Keys;
    ghost var seen := {};
    while left != {}
      invariant seen + left == ids.Keys && seen !! left && count == |ActiveIDs(ids, seen, now)|
      decreases |left|
    {
      var id :| id in left;
      OneMoreID(ids, seen, id, now);
      if ids[id].Active(now) {
        count := count + 1;
      }
      left, seen := left - {id}, seen + {id};
    }
    assert seen == ids.Keys;
  }

  ghost function ActiveIDs(ids: map<string, Record>, among: set<string>, now: int): set<string>
    requires among <= ids.Keys
  {
    set id | id in among && InForce(ids[id], now)
  }

  lemma OneMoreID(ids: map<string, Record>, among: set<string>, id: string, now: int)
    requires among <= ids.Keys && id in ids && id !in among
    ensures |ActiveIDs(ids, among + {id}, now)| == |ActiveIDs(ids, among, now)| + (if InForce(ids[id], now) then 1 else 0)
  {
    var more := ActiveIDs(ids, among + {id}, now);
    assert more == ActiveIDs(ids, among, now) + (if InForce(ids[id], now) then {id} else {});
  }

  /** The list a reload swaps in. */
  method Build(all: seq<Record>) returns (next: Set)
    requires forall r | r in all :: RecordOk(r)
    ensures fresh(next) && next.Valid() && next.Bans() == PutAll(NO_BANS, all)
    ensures fresh(Footprint(next.root4)) && fresh(Footprint(next.root6))
  {
    next := new Set();
    for i := 0 to |all|
      invariant fresh(next) && next.Valid()
      invariant fresh(Footprint(next.root4)) && fresh(Footprint(next.root6))
      invariant next.Bans() == PutAll(NO_BANS, all[..i])
    {
      PutAllSnoc(NO_BANS, all, i);
      var ok := next.Upsert(all[i]);
    }
    assert all[..|all|] == all;
  }

  lemma PutAllSnoc(b: BanList, all: seq<Record>, i: nat)
    requires i < |all| && forall r | r in all :: RecordOk(r)
    ensures PutAll(b, all[..i + 1]) == Put(PutAll(b, all[..i]), all[i])
  {
    assert all[..i + 1][..i] == all[..i];
  }
}
