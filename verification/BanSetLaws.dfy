/** What the ban list holds after any changes, by the targets the changes named: gawk-server/moderation/set.go. */
module BanSetLaws {
  import opened Outcomes
  import opened Addresses
  import opened BanTrie
  import opened BanSet

  // ----- broadcast IDs -----

  /** c types the ID character up: itself, its small letter, or for S the long s. */
  predicate Types(c: char, up: char) {
    c == up || ('A' <= up <= 'Z' && c == up - 'A' + 'a') || (up == 'S' && c == '\U{17F}')
  }

  predicate InAlphabet(up: string) {
    forall c | c in up :: c in "23456789ABCDEFGHJKMNPQRSTUVWXYZ"
  }

  lemma AlphabetIsUpper(c: char)
    requires c in ID_ALPHABET
    ensures !('a' <= c <= 'z') && c != '\U{17F}'
  {}

  lemma UpperIff(c: char, up: char)
    requires !('a' <= up <= 'z') && up != '\U{17F}'
    ensures Upper(c) == up <==> Types(c, up)
  {}

  /** A text names an ID exactly when it types its six characters of the alphabet, small or capital. */
  lemma NormalizesIff(id: string, up: string)
    ensures NormalizeID(id) == Some(up) <==>
            |id| == |up| == 6 && InAlphabet(up) && forall i | 0 <= i < 6 :: Types(id[i], up[i])
  {
    var raised := seq(|id|, (i: nat) requires i < |id| => Upper(id[i]));
    if |id| == |up| == 6 && InAlphabet(up) {
      forall i | 0 <= i < 6 ensures raised[i] == up[i] <==> Types(id[i], up[i]) {
        assert up[i] in up;
        AlphabetIsUpper(up[i]);
        UpperIff(id[i], up[i]);
      }
      assert (forall i | 0 <= i < 6 :: raised[i] == up[i]) <==> raised == up;
    }
  }

  // ----- what is held -----

  /** The record the list holds for a target. */
  function Held(b: BanList, t: Target): Option<Record>
    requires TargetOk(t)
  {
    match NormalizeTarget(t)
    case None => None
    case Some(n) =>
      if n.BroadcastID? then (if n.id in b.ids then Some(b.ids[n.id]) else None)
      else
        var p := PrefixOf(t);
        if p.v4 then (if p in b.v4 then Some(b.v4[p]) else None) else if p in b.v6 then Some(b.v6[p]) else None
  }

  /** Both targets name the same thing. */
  ghost predicate SameTarget(t: Target, u: Target)
    requires TargetOk(t) && TargetOk(u)
  {
    NormalizeTarget(t).Some? && NormalizeTarget(t) == NormalizeTarget(u)
  }

  lemma SameNetwork(t: Target, u: Target)
    requires TargetOk(t) && TargetOk(u) && t.IP? && u.IP? && !t.text.Malformed? && !u.text.Malformed?
    ensures SameTarget(t, u) <==> PrefixOf(t) == PrefixOf(u)
  {
    var p, q := PrefixOf(t), PrefixOf(u);
    assert Print(p) == Print(q) ==> p.v4 == q.v4 && p.addr == q.addr && p.len == q.len;
  }

  function Canonical(r: Record): Record
    requires RecordOk(r) && NormalizeTarget(r.target).Some?
  {
    r.(target := NormalizeTarget(r.target).value)
  }

  /** A record put in is held for every target that names the same thing, and what is held for any other stays. */
  lemma HeldAfterPut(b: BanList, r: Record, t: Target)
    requires RecordOk(r) && TargetOk(t)
    ensures Held(Put(b, r), t) == if SameTarget(r.target, t) then Some(Canonical(r)) else Held(b, t)
  {
    if NormalizeTarget(r.target).Some? && NormalizeTarget(t).Some? && r.target.IP? && t.IP? {
      SameNetwork(r.target, t);
    }
  }

  lemma HeldAfterDrop(b: BanList, gone: Target, t: Target)
    requires TargetOk(gone) && TargetOk(t)
    ensures Held(Drop(b, gone), t) == if SameTarget(gone, t) then None else Held(b, t)
  {
    if NormalizeTarget(gone).Some? && NormalizeTarget(t).Some? && gone.IP? && t.IP? {
      SameNetwork(gone, t);
    }
  }

  ghost predicate AllOk(all: seq<Record>) {
    forall i | 0 <= i < |all| :: RecordOk(all[i])
  }

  /** Which record is the last that names t; -1 if none does. */
  ghost function LastFor(all: seq<Record>, t: Target): (k: int)
    requires AllOk(all) && TargetOk(t)
    ensures -1 <= k < |all|
    ensures k >= 0 ==> SameTarget(all[k].target, t)
    ensures forall j | k < j < |all| :: !SameTarget(all[j].target, t)
  {
    if all == [] then -1
    else if SameTarget(all[|all| - 1].target, t) then |all| - 1
    else LastFor(all[..|all| - 1], t)
  }

  lemma OneMoreHeld(b: BanList, r: Record, t: Target, held: Option<Record>)
    requires RecordOk(r) && TargetOk(t) && Held(b, t) == held
    ensures Held(Put(b, r), t) == if SameTarget(r.target, t) then Some(Canonical(r)) else held
  {
    HeldAfterPut(b, r, t);
  }

  /** A load of records leaves, for every target, the last record that names it, or none if none does. */
  lemma {:induction false} LastWins(all: seq<Record>, t: Target)
    requires AllOk(all) && TargetOk(t)
    ensures var k := LastFor(all, t); Held(PutAll(NO_BANS, all), t) == if k < 0 then None else Some(Canonical(all[k]))
  {
    if all != [] {
      var n := |all| - 1;
      var k := LastFor(all[..n], t);
      LastWins(all[..n], t);
      OneMoreHeld(PutAll(NO_BANS, all[..n]), all[n], t, if k < 0 then None else Some(Canonical(all[k])));
    } else {
      NothingHeld(t);
    }
  }

  lemma NothingHeld(t: Target)
    requires TargetOk(t)
    ensures Held(NO_BANS, t) == None
  {}
}
