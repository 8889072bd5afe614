/** The ban trie of gawk-server/moderation/set.go in memory: nodes relinked in place. */
module TrieNodes {
  import opened Outcomes
  import opened Addresses
  import opened BanTrie
  import opened BanTrieLaws

  class TrieNode {
    const prefix: Prefix
    var rec: Option<Record>
    var zero: TrieNode?
    var one: TrieNode?
    ghost var tree: Trie
    ghost var Repr: set<TrieNode>

    ghost predicate Valid()
      reads this, Repr
      decreases Repr
      ensures Valid() ==> this in Repr && tree.Node?
    {
      && this in Repr
      && (zero != null ==> zero in Repr && zero.Repr <= Repr && this !in zero.Repr && zero.Valid())
      && (one != null ==> one in Repr && one.Repr <= Repr && this !in one.Repr && one.Valid())
      && (zero != null && one != null ==> zero.Repr !! one.Repr)
      && tree == Node(prefix, rec, if zero == null then Empty else zero.tree, if one == null then Empty else one.tree)
    }

    constructor (prefix: Prefix, rec: Option<Record>)
      ensures Valid() && fresh(Repr) && tree == Node(prefix, rec, Empty, Empty) && Repr == {this}
      ensures this.prefix == prefix && zero == null && one == null && this.rec == rec
    {
      this.prefix := prefix;
      this.rec := rec;
      zero, one := null, null;
      tree := Node(prefix, rec, Empty, Empty);
      Repr := {this};
    }

    /** The node minus its child on side `bit`, which may have changed underneath it. */
    ghost predicate ValidExcept(bit: bool)
      reads this, Repr
    {
      && this in Repr && tree.Node? && tree.prefix == prefix && tree.rec == rec
      && var other := if bit then zero else one;
         && (other != null ==> other in Repr && other.Repr <= Repr && this !in other.Repr && other.Valid())
         && (if bit then tree.zero else tree.one) == (if other == null then Empty else other.tree)
    }

    /** child[bit] = c */
    method SetChild(bit: bool, c: TrieNode?)
      requires ValidExcept(bit)
      requires c != null ==> c.Valid() && this !in c.Repr
      requires c != null && bit && zero != null ==> zero.Repr !! c.Repr
      requires c != null && !bit && one != null ==> one.Repr !! c.Repr
      modifies this
      ensures Valid()
      ensures tree == if bit then old(tree).(one := Tree(c)) else old(tree).(zero := Tree(c))
      ensures Repr == old(Repr) + Footprint(c)
      ensures rec == old(rec)
      ensures if bit then one == c && zero == old(zero) else zero == c && one == old(one)
    {
      if bit {
        one := c;
      } else {
        zero := c;
      }
      Repr := Repr + Footprint(c);
      tree := if bit then tree.(one := Tree(c)) else tree.(zero := Tree(c));
    }
  }

  ghost function Tree(n: TrieNode?): Trie
    reads n
  {
    if n == null then Empty else n.tree
  }

  ghost function Footprint(n: TrieNode?): set<TrieNode>
    reads n
  {
    if n == null then {} else n.Repr
  }

  ghost predicate Sound(n: TrieNode?, v4: bool)
    reads n, Footprint(n)
  {
    (n != null ==> n.Valid()) && WellFormed(Tree(n), v4)
  }

  method TrieInsert(n: TrieNode?, p: Prefix, r: Record) returns (m: TrieNode)
    requires p.Valid() && Sound(n, p.v4)
    modifies Footprint(n)
    ensures m.Valid() && m.tree == Insert(old(Tree(n)), p, r)
    ensures fresh(m.Repr - old(Footprint(n)))
    decreases Footprint(n)
  {
    if n == null {
      m := new TrieNode(p, Some(r));
      return;
    }
    if n.prefix == p {
      n.rec := Some(r);
      n.tree := n.tree.(rec := Some(r));
      return n;
    }
    if ContainsPrefix(n.prefix, p) {
      var b := p.addr[n.prefix.len];
      var c := TrieInsert(if b then n.one else n.zero, p, r);
      n.SetChild(b, c);
      return n;
    }
    m := InsertAbove(n, p, r);
  }

  /** p becomes n's parent, or both hang from a new glue node. */
  method InsertAbove(n: TrieNode, p: Prefix, r: Record) returns (m: TrieNode)
    requires p.Valid() && Sound(n, p.v4)
    requires n.prefix != p && !ContainsPrefix(n.prefix, p)
    ensures m.Valid() && m.tree == Insert(n.tree, p, r)
    ensures fresh(m.Repr - n.Repr)
  {
    if ContainsPrefix(p, n.prefix) {
      m := new TrieNode(p, Some(r));
      m.SetChild(n.prefix.addr[p.len], n);
      return;
    }
    var g := GluePrefix(n.prefix, p);
    GlueSplits(n.prefix, p);
    m := new TrieNode(g, None);
    var leaf := new TrieNode(p, Some(r));
    m.SetChild(n.prefix.addr[g.len], n);
    m.SetChild(p.addr[g.len], leaf);
  }

  method TrieDelete(n: TrieNode?, p: Prefix) returns (m: TrieNode?)
    requires p.Valid() && Sound(n, p.v4)
    modifies Footprint(n)
    ensures (m != null ==> m.Valid()) && Tree(m) == Delete(old(Tree(n)), p)
    ensures Footprint(m) <= old(Footprint(n))
    decreases Footprint(n)
  {
    if n == null {
      return null;
    }
    if n.prefix == p {
      n.rec := None;
      n.tree := n.tree.(rec := None);
    } else if ContainsPrefix(n.prefix, p) {
      var b := p.addr[n.prefix.len];
      var c := TrieDelete(if b then n.one else n.zero, p);
      n.SetChild(b, c);
    } else {
      return n;
    }
    if n.rec.None? {
      if n.zero == null {
        return n.one;
      }
      if n.one == null {
        return n.zero;
      }
    }
    return n;
  }

  method TrieLookup(root: TrieNode?, bits: seq<bool>, now: int) returns (best: Option<Record>)
    requires (|bits| == 32 || |bits| == 128) && Sound(root, |bits| == 32)
    ensures best == Lookup(Tree(root), bits, now)
    ensures BestMatch(Contents(Tree(root)), bits, now, best)
  {
    LookupIsBestMatch(Tree(root), bits, now);
    ghost var answer := Lookup(Tree(root), bits, now);
    best := None;
    var n := root;
    while n != null
      invariant Sound(n, |bits| == 32)
      invariant answer == var deeper := Lookup(Tree(n), bits, now); if deeper.Some? then deeper else best
      decreases Tree(n)
    {
      if !n.prefix.Contains(bits) {
        break;
      }
      if n.rec.Some? && n.rec.value.Active(now) {
        best := n.rec;
      }
      if n.prefix.len >= |bits| {
        break;
      }
      n := if bits[n.prefix.len] then n.one else n.zero;
    }
  }

  /** The walk of ActiveCounts. */
  method CountNodes(n: TrieNode?, v4: bool, now: int) returns (count: nat)
    requires Sound(n, v4)
    ensures count == |ActiveKeys(Contents(Tree(n)), now)|
    decreases Footprint(n)
  {
    CountActiveIsExact(Tree(n), v4, now);
    if n == null {
      return 0;
    }
    CountActiveIsExact(n.tree.zero, v4, now);
    CountActiveIsExact(n.tree.one, v4, now);
    var a := CountNodes(n.zero, v4, now);
    var b := CountNodes(n.one, v4, now);
    count := (if n.rec.Some? && n.rec.value.Active(now) then 1 else 0) + a + b;
  }
}
