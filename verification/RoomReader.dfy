/** The cursor of gawk-server/wire/room.go: it advances, and its first failure sticks. */
module RoomReader {
  import opened Outcomes
  import opened WireFields
  import opened RoomItems
  import opened RoomState

  function Rest<T>(r: Option<Read<T>>): Option<Octets> {
    if r.None? then None else Some(r.value.rest)
  }

  class Cursor {
    const buf: Octets
    var off: nat
    var err: Option<WireError>

    ghost predicate Valid()
      reads this
    {
      off <= |buf|
    }

    /** The unread bytes, None once a read has failed. */
    ghost function Left(): Option<Octets>
      requires Valid()
      reads this
    {
      if err.Some? then None else Some(buf[off..])
    }

    /** A read step: the bytes left are what the field's reader leaves, and a failure is the sentinel or an earlier one. */
    twostate predicate Reads<T>(r: Option<Read<T>>, sentinel: WireError)
      requires old(Valid())
      reads this
    {
      Valid() && Left() == Rest(r) && err == (if old(err).Some? then old(err) else if r.None? then Some(sentinel) else None)
    }

    constructor (buf: Octets, off: nat)
      requires off <= |buf|
      ensures Valid() && this.buf == buf && Left() == Some(buf[off..])
    {
      this.buf := buf;
      this.off := off;
      err := None;
    }

    method Fail(sentinel: WireError)
      requires Valid()
      modifies this`err
      ensures Valid() && Left() == None && err == if old(err).Some? then old(err) else Some(sentinel)
    {
      if err.None? {
        err := Some(sentinel);
      }
    }

    method U8(sentinel: WireError) returns (v: octet)
      requires Valid()
      modifies this`off, this`err
      ensures var r := if old(Left()).None? then None else ReadU8(old(Left()).value);
              Reads(r, sentinel) && v == if r.None? then 0 else r.value.value
    {
      if err.Some? {
        return 0;
      }
      if off + 1 > |buf| {
        Fail(sentinel);
        return 0;
      }
      v := buf[off];
      off := off + 1;
    }

    method U16(sentinel: WireError) returns (v: u16)
      requires Valid()
      modifies this`off, this`err
      ensures var r := if old(Left()).None? then None else ReadU16(old(Left()).value);
              Reads(r, sentinel) && v == if r.None? then 0 else r.value.value
    {
      if err.Some? {
        return 0;
      }
      if off + 2 > |buf| {
        Fail(sentinel);
        return 0;
      }
      var hi: int, lo: int := buf[off], buf[off + 1];
      v := hi * 256 + lo;
      off := off + 2;
    }

    method U32(sentinel: WireError) returns (v: u32)
      requires Valid()
      modifies this`off, this`err
      ensures var r := if old(Left()).None? then None else ReadU32(old(Left()).value);
              Reads(r, sentinel) && v == if r.None? then 0 else r.value.value
    {
      if err.Some? {
        return 0;
      }
      if off + 4 > |buf| {
        Fail(sentinel);
        return 0;
      }
      v := ReadU32(buf[off..]).value.value;
      off := off + 4;
    }

    /** An octet and the check that follows it for every kind and bitmap. */
    method UpTo(sentinel: WireError, max: octet) returns (v: octet)
      requires Valid()
      modifies this`off, this`err
      ensures var r := if old(Left()).None? then None else ReadUpTo(old(Left()).value, max);
              Reads(r, sentinel) && (r.Some? ==> v == r.value.value)
    {
      v := U8(sentinel);
      if err.None? && v > max {
        Fail(sentinel);
      }
    }

    method Bytes8(sentinel: WireError, max: nat) returns (v: Octets)
      requires Valid()
      modifies this`off, this`err
      ensures var r := if old(Left()).None? then None else ReadBytes8(old(Left()).value, max);
              Reads(r, sentinel) && v == if r.None? then [] else r.value.value
    {
      var n := U8(sentinel);
      if err.Some? {
        assert old(Left()).None? || ReadU8(old(Left()).value).None?;
        return [];
      }
      if n > max || off + n > |buf| {
        assert ReadBytes8(buf[off - 1..], max).None?;
        Fail(sentinel);
        return [];
      }
      assert buf[off - 1..][1..1 + n] == buf[off..off + n] && buf[off - 1..][1 + n..] == buf[off + n..];
      v := buf[off..off + n];
      off := off + n;
    }

    method Bytes16(sentinel: WireError, max: nat) returns (v: Octets)
      requires Valid()
      modifies this`off, this`err
      ensures var r := if old(Left()).None? then None else ReadBytes16(old(Left()).value, max);
              Reads(r, sentinel) && v == if r.None? then [] else r.value.value
    {
      var n := U16(sentinel);
      if err.Some? {
        return [];
      }
      if n > max || off + n > |buf| {
        Fail(sentinel);
        return [];
      }
      v := buf[off..off + n];
      off := off + n;
    }

    method Str8(sentinel: WireError, max: octet) returns (v: Octets)
      requires Valid()
      modifies this`off, this`err
      ensures var r := if old(Left()).None? then None else ReadText(old(Left()).value, max);
              Reads(r, sentinel) && v == if r.None? then [] else r.value.value
    {
      v := Bytes8(sentinel, max);
      if err.Some? {
        return [];
      }
      if !Utf8(v) {
        Fail(sentinel);
        return [];
      }
    }

    method BroadcastID(sentinel: WireError) returns (v: Octets)
      requires Valid()
      modifies this`off, this`err
      ensures var r := if old(Left()).None? then None else ReadId(old(Left()).value, false);
              Reads(r, sentinel) && v == if r.None? then [] else r.value.value
    {
      var raw := Bytes8(sentinel, ID_LENGTH);
      if err.Some? {
        return [];
      }
      if NormalizeId(raw).None? {
        Fail(sentinel);
        return [];
      }
      v := NormalizeId(raw).value;
    }

    method ReadAttachment(sentinel: WireError) returns (a: Attachment)
      requires Valid()
      modifies this`off, this`err
      ensures var r := if old(Left()).None? then None else RoomItems.ReadAttachment(old(Left()).value, false);
              Reads(r, sentinel) && (r.Some? ==> a == r.value.value)
    {
      var broadcast := BroadcastID(sentinel);
      var caption := Str8(sentinel, MAX_LABEL);
      var flags := UpTo(sentinel, 1);
      var viewers := U32(sentinel);
      a := Attachment(broadcast, caption, flags == 1, viewers);
    }

    method ReadParticipant(sentinel: WireError) returns (p: Participant)
      requires Valid()
      modifies this`off, this`err
      ensures var r := if old(Left()).None? then None else RoomItems.ReadParticipant(old(Left()).value);
              Reads(r, sentinel) && (r.Some? ==> p == r.value.value)
    {
      var id := U16(sentinel);
      var kind := UpTo(sentinel, CLIENT_KIND_MAX);
      var flags := UpTo(sentinel, PARTICIPANT_FLAGS);
      var nickname := Str8(sentinel, MAX_NICKNAME);
      var identity := Str8(sentinel, MAX_IDENTITY);
      p := Participant(id, kind, flags, nickname, identity);
    }

    method ReadVoiceUser(sentinel: WireError) returns (v: VoiceUser)
      requires Valid()
      modifies this`off, this`err
      ensures var r := if old(Left()).None? then None else RoomItems.ReadVoiceUser(old(Left()).value);
              Reads(r, sentinel) && (r.Some? ==> v == r.value.value)
    {
      var session := U32(sentinel);
      var kind := UpTo(sentinel, VOICE_KIND_MAX);
      var participant := U16(sentinel);
      var flags := UpTo(sentinel, VOICE_USER_FLAGS);
      var name := Str8(sentinel, MAX_VOICE_NAME);
      v := VoiceUser(session, kind, participant, flags, name);
    }

    /** The list comes to whole: xs, then n more entries from the bytes left, unless a read has failed. */
    ghost predicate Owes<T(!new)>(whole: Option<Read<seq<T>>>, xs: seq<T>, n: nat, get: Octets -> Option<Read<T>>, sentinel: WireError)
      reads this
    {
      Valid() && if err.Some? then err == Some(sentinel) && whole.None? else whole == Remaining(xs, buf[off..], n, get)
    }

    lemma ListStarts<T(!new)>(n: nat, get: Octets -> Option<Read<T>>, sentinel: WireError) returns (whole: Option<Read<seq<T>>>)
      requires Valid() && err.None?
      ensures whole == ReadAll(Left().value, n, get) && Owes(whole, [], n, get, sentinel)
    {
      whole := ReadAll(Left().value, n, get);
      RemainingStarts(buf[off..], n, get);
    }

    lemma ListEnds<T(!new)>(whole: Option<Read<seq<T>>>, xs: seq<T>, n: nat, get: Octets -> Option<Read<T>>, sentinel: WireError)
      requires Owes(whole, xs, n, get, sentinel) && (n == 0 || err.Some?)
      ensures Left() == Rest(whole) && err == (if whole.None? then Some(sentinel) else None)
      ensures whole.Some? ==> xs == whole.value.value
    {
    }

    /** The record must have been consumed exactly. */
    method Done(sentinel: WireError) returns (e: Option<WireError>)
      requires Valid()
      ensures e == if err.Some? then err else if Left() == Some([]) then None else Some(sentinel)
    {
      if err.Some? {
        return err;
      }
      assert off == |buf| <==> buf[off..] == [];
      return if off != |buf| then Some(sentinel) else None;
    }
  }

  // ----- lists: the loop against the recursion -----

  /** What a list comes to when xs has been read and n more entries stand in b. */
  ghost function Remaining<T(!new)>(xs: seq<T>, b: Octets, n: nat, get: Octets -> Option<Read<T>>): Option<Read<seq<T>>>
    decreases n
  {
    if n == 0 then Some(Read(xs, b))
    else
      var x :- get(b);
      Remaining(xs + [x.value], x.rest, n - 1, get)
  }

  lemma {:induction false} RemainingIs<T(!new)>(xs: seq<T>, b: Octets, n: nat, get: Octets -> Option<Read<T>>)
    ensures var r := ReadAll(b, n, get);
            Remaining(xs, b, n, get) == if r.None? then None else Some(Read(xs + r.value.value, r.value.rest))
    decreases n
  {
    if n == 0 {
      assert xs + [] == xs;
    } else if get(b).Some? {
      var x := get(b).value;
      RemainingIs(xs + [x.value], x.rest, n - 1, get);
      var r := ReadAll(x.rest, n - 1, get);
      assert r.Some? ==> xs + ([x.value] + r.value.value) == xs + [x.value] + r.value.value;
    }
  }

  lemma RemainingStarts<T(!new)>(b: Octets, n: nat, get: Octets -> Option<Read<T>>)
    ensures Remaining([], b, n, get) == ReadAll(b, n, get)
  {
    RemainingIs([], b, n, get);
    var r := ReadAll(b, n, get);
    assert r.Some? ==> [] + r.value.value == r.value.value;
  }

  lemma ListSteps<T(!new)>(whole: Option<Read<seq<T>>>, xs: seq<T>, b: Octets, n: nat, get: Octets -> Option<Read<T>>,
                           r: Option<Read<T>>, x: T)
    returns (more: nat)
    requires n > 0 && whole == Remaining(xs, b, n, get) && r == get(b) && (r.Some? ==> x == r.value.value)
    ensures more == n - 1 && (r.None? ==> whole.None?)
    ensures r.Some? ==> whole == Remaining(xs + [x], r.value.rest, more, get)
  {
    more := n - 1;
  }
}
