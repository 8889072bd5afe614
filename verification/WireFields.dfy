/**
 * The field encodings of gawk-server/wire/room.go: what the appenders write and what the cursor reads back.
 * Every reader takes the unread bytes and gives the value with the bytes after it, or None where the cursor fails.
 */
module WireFields {
  import opened Outcomes

  type octet = x: int | 0 <= x < 0x100
  type u16 = x: int | 0 <= x < 0x1_0000
  type u32 = x: int | 0 <= x < 0x1_0000_0000
  type Octets = seq<octet>

  datatype Read<+T> = Read(value: T, rest: Octets)

  // ----- integers, big endian -----

  function U8(v: octet): Octets { [v] }

  function U16(v: u16): (b: Octets)
    ensures |b| == 2
  {
    [v / 256, v % 256]
  }

  function U32(v: u32): (b: Octets)
    ensures |b| == 4
  {
    U16(v / 0x1_0000) + U16(v % 0x1_0000)
  }

  function ReadU8(b: Octets): Option<Read<octet>> {
    if |b| < 1 then None else Some(Read(b[0], b[1..]))
  }

  /** An octet that must not pass max: a kind, or a bitmap whose reserved high bits must be zero. */
  function ReadUpTo(b: Octets, max: octet): Option<Read<octet>> {
    var v :- ReadU8(b);
    if v.value > max then None else Some(v)
  }

  function ReadU16(b: Octets): Option<Read<u16>> {
    if |b| < 2 then None
    else
      var hi: int, lo: int := b[0], b[1];
      Some(Read(hi * 256 + lo, b[2..]))
  }

  function ReadU32(b: Octets): Option<Read<u32>> {
    if |b| < 4 then None
    else
      var hi: int, lo: int := ReadU16(b).value.value, ReadU16(b[2..]).value.value;
      Some(Read(hi * 0x1_0000 + lo, b[4..]))
  }

  lemma FitsField(v: nat, size: nat)
    requires v < size
    ensures v % size == v
  {}

  lemma U16Reads(v: u16, rest: Octets)
    ensures ReadU16(U16(v) + rest) == Some(Read(v, rest))
  {
    assert (U16(v) + rest)[2..] == rest;
  }

  lemma U32Reads(v: u32, rest: Octets)
    ensures ReadU32(U32(v) + rest) == Some(Read(v, rest))
  {
    var b := U32(v) + rest;
    assert b == U16(v / 0x1_0000) + (U16(v % 0x1_0000) + rest);
    U16Reads(v / 0x1_0000, U16(v % 0x1_0000) + rest);
    U16Reads(v % 0x1_0000, rest);
    assert b[2..] == U16(v % 0x1_0000) + rest && b[4..] == rest;
  }

  lemma ReadU16Writes(b: Octets)
    requires ReadU16(b).Some?
    ensures b == U16(ReadU16(b).value.value) + ReadU16(b).value.rest
  {
    assert b == [b[0], b[1]] + b[2..];
  }

  lemma ReadU32Writes(b: Octets)
    requires ReadU32(b).Some?
    ensures b == U32(ReadU32(b).value.value) + ReadU32(b).value.rest
  {
    ReadU16Writes(b);
    ReadU16Writes(b[2..]);
    var hi: int, lo: int := ReadU16(b).value.value, ReadU16(b[2..]).value.value;
    assert (hi * 0x1_0000 + lo) / 0x1_0000 == hi && (hi * 0x1_0000 + lo) % 0x1_0000 == lo;
    assert b == U16(hi) + (U16(lo) + b[4..]);
  }

  // ----- length-prefixed bytes; the length is truncated to its field -----

  function Bytes8(s: Octets): Octets {
    [|s| % 0x100] + s
  }

  function Bytes16(s: Octets): Octets {
    U16(|s| % 0x1_0000) + s
  }

  function ReadBytes8(b: Octets, max: nat): (r: Option<Read<Octets>>)
    ensures r.Some? ==> |r.value.value| <= max && |r.value.value| < 0x100
  {
    if |b| < 1 || b[0] > max || 1 + b[0] > |b| then None else Some(Read(b[1..1 + b[0]], b[1 + b[0]..]))
  }

  function ReadBytes16(b: Octets, max: nat): (r: Option<Read<Octets>>)
    ensures r.Some? ==> |r.value.value| <= max && |r.value.value| < 0x1_0000
  {
    var n :- ReadU16(b);
    if n.value > max || n.value > |n.rest| then None else Some(Read(n.rest[..n.value], n.rest[n.value..]))
  }

  lemma Bytes8Reads(s: Octets, max: nat, rest: Octets)
    requires |s| <= max && |s| < 0x100
    ensures ReadBytes8(Bytes8(s) + rest, max) == Some(Read(s, rest))
  {
    var b := Bytes8(s) + rest;
    assert b[1..1 + |s|] == s && b[1 + |s|..] == rest;
  }

  lemma ReadBytes8Writes(b: Octets, max: nat)
    requires ReadBytes8(b, max).Some?
    ensures b == Bytes8(ReadBytes8(b, max).value.value) + ReadBytes8(b, max).value.rest
  {
    assert b == [b[0]] + b[1..1 + b[0]] + b[1 + b[0]..];
  }

  lemma Bytes16Reads(s: Octets, max: nat, rest: Octets)
    requires |s| <= max && |s| < 0x1_0000
    ensures ReadBytes16(Bytes16(s) + rest, max) == Some(Read(s, rest))
  {
    assert Bytes16(s) + rest == U16(|s|) + (s + rest);
    U16Reads(|s|, s + rest);
  }

  lemma ReadBytes16Writes(b: Octets, max: nat)
    requires ReadBytes16(b, max).Some?
    ensures b == Bytes16(ReadBytes16(b, max).value.value) + ReadBytes16(b, max).value.rest
  {
    ReadU16Writes(b);
    var n := ReadU16(b).value;
    assert n.rest == n.rest[..n.value] + n.rest[n.value..];
    assert U16(n.value) + (n.rest[..n.value] + n.rest[n.value..]) == U16(n.value) + n.rest[..n.value] + n.rest[n.value..];
  }

  // ----- text -----

  predicate Continuation(x: octet) {
    0x80 <= x <= 0xBF
  }

  /** Bytes of the UTF-8 sequence at the front of s, 0 if there is no well-formed one (RFC 3629 section 4). */
  function RuneLen(s: Octets): (n: nat)
    ensures n <= |s|
  {
    if |s| >= 1 && s[0] < 0x80 then 1
    else if |s| >= 2 && 0xC2 <= s[0] <= 0xDF && Continuation(s[1]) then 2
    else if |s| >= 3 && 0xE0 <= s[0] <= 0xEF && Continuation(s[1]) && Continuation(s[2]) &&
            (s[0] == 0xE0 ==> s[1] >= 0xA0) && (s[0] == 0xED ==> s[1] <= 0x9F) then 3
    else if |s| >= 4 && 0xF0 <= s[0] <= 0xF4 && Continuation(s[1]) && Continuation(s[2]) && Continuation(s[3]) &&
            (s[0] == 0xF0 ==> s[1] >= 0x90) && (s[0] == 0xF4 ==> s[1] <= 0x8F) then 4
    else 0
  }

  predicate Utf8(s: Octets)
    decreases |s|
  {
    s == [] || (RuneLen(s) > 0 && Utf8(s[RuneLen(s)..]))
  }

  predicate TextOk(s: Octets, max: octet) {
    |s| <= max && Utf8(s)
  }

  function ReadText(b: Octets, max: octet): (r: Option<Read<Octets>>)
    ensures r.Some? ==> TextOk(r.value.value, max)
  {
    var s :- ReadBytes8(b, max);
    if Utf8(s.value) then Some(s) else None
  }

  lemma TextReads(s: Octets, max: octet, rest: Octets)
    requires TextOk(s, max)
    ensures ReadText(Bytes8(s) + rest, max) == Some(Read(s, rest))
  {
    Bytes8Reads(s, max, rest);
  }

  lemma ReadTextWrites(b: Octets, max: octet)
    requires ReadText(b, max).Some?
    ensures b == Bytes8(ReadText(b, max).value.value) + ReadText(b, max).value.rest
  {
    ReadBytes8Writes(b, max);
  }

  // ----- broadcast IDs -----

  const ID_LENGTH := 6

  /** Digits 2-9 and upper-case letters without I, L, O. */
  predicate IdSymbol(c: octet) {
    0x32 <= c <= 0x39 || (0x41 <= c <= 0x5A && c != 0x49 && c != 0x4C && c != 0x4F)
  }

  predicate IdOk(id: Octets) {
    |id| == ID_LENGTH && forall c | c in id :: IdSymbol(c)
  }

  /**
   * strings.ToUpper as far as the alphabet can tell: letters, and the long s (C5 BF), whose upper case is S. Any other
   * character beyond ASCII maps to something outside the alphabet.
   */
  function UpperAll(s: Octets): (r: Octets)
    ensures |r| <= |s|
    decreases |s|
  {
    if s == [] then []
    else if |s| >= 2 && s[0] == 0xC5 && s[1] == 0xBF then [0x53] + UpperAll(s[2..])
    else [if 0x61 <= s[0] <= 0x7A then s[0] - 0x20 else s[0]] + UpperAll(s[1..])
  }

  function NormalizeId(raw: Octets): Option<Octets> {
    if IdOk(UpperAll(raw)) then Some(UpperAll(raw)) else None
  }

  lemma {:induction false} UpperOfSymbols(id: Octets)
    requires forall c | c in id :: IdSymbol(c)
    ensures UpperAll(id) == id
  {
    if id != [] {
      assert id[0] in id && forall c | c in id[1..] :: c in id;
      UpperOfSymbols(id[1..]);
    }
  }

  lemma NormalIdIsFixed(id: Octets)
    requires IdOk(id)
    ensures NormalizeId(id) == Some(id)
  {
    UpperOfSymbols(id);
  }

  /** The ID as appended; nothing where the appender refuses it. */
  function CleanId(raw: Octets): Octets {
    if NormalizeId(raw).Some? then NormalizeId(raw).value else []
  }

  /** The strict reading also refuses an ID that is not in canonical form already; the program reads with strict off. */
  function ReadId(b: Octets, strict: bool): Option<Read<Octets>> {
    var raw :- ReadBytes8(b, ID_LENGTH);
    var id :- NormalizeId(raw.value);
    if strict && id != raw.value then None else Some(Read(id, raw.rest))
  }

  lemma IdReads(raw: Octets, strict: bool, rest: Octets)
    requires NormalizeId(raw).Some?
    ensures ReadId(Bytes8(CleanId(raw)) + rest, strict) == Some(Read(CleanId(raw), rest))
  {
    Bytes8Reads(CleanId(raw), ID_LENGTH, rest);
    NormalIdIsFixed(CleanId(raw));
  }

  lemma ReadIdWrites(b: Octets, strict: bool)
    requires ReadId(b, strict).Some?
    ensures var r := ReadId(b, strict).value;
            NormalizeId(r.value) == Some(r.value) && |b| == |Bytes8(r.value) + r.rest| && ReadId(b, false) == Some(r) &&
            (strict ==> b == Bytes8(r.value) + r.rest)
  {
    ReadBytes8Writes(b, ID_LENGTH);
    NormalIdIsFixed(ReadId(b, strict).value.value);
  }

  // ----- counted lists -----

  function PutAll<T>(xs: seq<T>, put: (T, Octets) -> Octets, rest: Octets): Octets {
    if xs == [] then rest else put(xs[0], PutAll(xs[1..], put, rest))
  }

  function ReadAll<T>(b: Octets, n: nat, get: Octets -> Option<Read<T>>): (r: Option<Read<seq<T>>>)
    ensures r.Some? ==> |r.value.value| == n
    decreases n
  {
    if n == 0 then Some(Read([], b))
    else
      var x :- get(b);
      var xs :- ReadAll(x.rest, n - 1, get);
      Some(Read([x.value] + xs.value, xs.rest))
  }

  function CleanAll<T>(xs: seq<T>, clean: T -> T): (r: seq<T>)
    ensures |r| == |xs|
  {
    if xs == [] then [] else [clean(xs[0])] + CleanAll(xs[1..], clean)
  }

  lemma {:induction false} AllRead<T(!new)>(xs: seq<T>, put: (T, Octets) -> Octets, get: Octets -> Option<Read<T>>, clean: T -> T,
                                      rest: Octets)
    requires forall x, t | x in xs :: get(put(x, t)) == Some(Read(clean(x), t))
    ensures ReadAll(PutAll(xs, put, rest), |xs|, get) == Some(Read(CleanAll(xs, clean), rest))
  {
    if xs != [] {
      var t := PutAll(xs[1..], put, rest);
      assert xs[0] in xs && get(put(xs[0], t)) == Some(Read(clean(xs[0]), t));
      AllRead(xs[1..], put, get, clean, rest);
    }
  }

  /** put adds its own bytes in front of the ones given. */
  ghost predicate Prepends<T(!new)>(put: (T, Octets) -> Octets) {
    forall x, t :: put(x, t) == put(x, []) + t
  }

  /** Rewriting what get reads gives as many bytes, the same ones if exact, and a value that ok accepts. */
  ghost predicate Rewrites<T(!new)>(put: (T, Octets) -> Octets, get: Octets -> Option<Read<T>>, ok: T -> bool, exact: bool) {
    forall b {:trigger get(b)} | get(b).Some? ::
      var r := get(b).value;
      ok(r.value) && |b| == |put(r.value, r.rest)| && (exact ==> b == put(r.value, r.rest))
  }

  lemma {:induction false} AllRewrite<T(!new)>(b: Octets, n: nat, put: (T, Octets) -> Octets, get: Octets -> Option<Read<T>>,
                                         ok: T -> bool, exact: bool)
    requires Prepends(put) && Rewrites(put, get, ok, exact)
    requires ReadAll(b, n, get).Some?
    ensures var r := ReadAll(b, n, get).value;
            (forall x | x in r.value :: ok(x)) && |b| == |PutAll(r.value, put, r.rest)| &&
            (exact ==> b == PutAll(r.value, put, r.rest))
    decreases n
  {
    if n > 0 {
      var x := get(b).value;
      AllRewrite(x.rest, n - 1, put, get, ok, exact);
      var r := ReadAll(b, n, get).value;
      assert r.value[1..] == ReadAll(x.rest, n - 1, get).value.value;
      var t := PutAll(r.value[1..], put, r.rest);
      assert put(x.value, x.rest) == put(x.value, []) + x.rest && put(x.value, t) == put(x.value, []) + t;
    }
  }

  lemma {:induction false} PutAllPrepends<T(!new)>(xs: seq<T>, put: (T, Octets) -> Octets, rest: Octets)
    requires Prepends(put)
    ensures PutAll(xs, put, rest) == PutAll(xs, put, []) + rest
  {
    if xs != [] {
      PutAllPrepends(xs[1..], put, rest);
      var t := PutAll(xs[1..], put, []);
      assert put(xs[0], t + rest) == put(xs[0], []) + (t + rest) == (put(xs[0], []) + t) + rest;
    }
  }
}
