/**
 * What the texts and broadcast IDs of the room and relay messages are: UTF-8 by its code points (RFC 3629 section 3), and
 * IDs by the characters a person may type.
 */
module RoomText {
  import opened Outcomes
  import opened WireFields

  /** A Unicode scalar value: a code point that is no surrogate. */
  type Scalar = x: int | 0 <= x < 0xD800 || 0xE000 <= x < 0x11_0000

  // ----- UTF-8 -----

  function Encode(x: Scalar): (s: Octets)
    ensures 1 <= |s| <= 4
  {
    if x < 0x80 then [x]
    else if x < 0x800 then [0xC0 + x / 64, 0x80 + x % 64]
    else if x < 0x1_0000 then [0xE0 + x / 4096, 0x80 + x / 64 % 64, 0x80 + x % 64]
    else [0xF0 + x / 262144, 0x80 + x / 4096 % 64, 0x80 + x / 64 % 64, 0x80 + x % 64]
  }

  function EncodeAll(xs: seq<Scalar>): Octets {
    if xs == [] then [] else Encode(xs[0]) + EncodeAll(xs[1..])
  }

  lemma TwoBytes(x: Scalar)
    requires 0x80 <= x < 0x800
    ensures 0xC2 <= 0xC0 + x / 64 <= 0xDF
  {}

  lemma ThreeBytes(x: Scalar)
    requires 0x800 <= x < 0x1_0000
    ensures 0xE0 <= 0xE0 + x / 4096 <= 0xEF
    ensures x / 4096 == 0 ==> x / 64 % 64 >= 0x20
    ensures x / 4096 == 0x0D ==> x / 64 % 64 <= 0x1F
  {
    if x / 4096 == 0x0D {
      assert x < 0xD800;
    }
  }

  lemma FourBytes(x: Scalar)
    requires 0x1_0000 <= x
    ensures 0xF0 <= 0xF0 + x / 262144 <= 0xF4
    ensures x / 262144 == 0 ==> x / 4096 % 64 >= 0x10
    ensures x / 262144 == 4 ==> x / 4096 % 64 <= 0x0F
  {}

  lemma EncodedIsRune(x: Scalar, rest: Octets)
    ensures RuneLen(Encode(x) + rest) == |Encode(x)|
  {
    if 0x80 <= x < 0x800 {
      TwoBytes(x);
    } else if 0x800 <= x < 0x1_0000 {
      ThreeBytes(x);
    } else if 0x1_0000 <= x {
      FourBytes(x);
    }
  }

  lemma TwoByteRune(a: octet, b: octet) returns (x: Scalar)
    requires 0xC2 <= a <= 0xDF && Continuation(b)
    ensures Encode(x) == [a, b]
  {
    var hi: int, lo: int := a - 0xC0, b - 0x80;
    x := hi * 64 + lo;
    assert x / 64 == hi && x % 64 == lo;
  }

  lemma ThreeByteRune(a: octet, b: octet, c: octet) returns (x: Scalar)
    requires 0xE0 <= a <= 0xEF && Continuation(b) && Continuation(c)
    requires (a == 0xE0 ==> b >= 0xA0) && (a == 0xED ==> b <= 0x9F)
    ensures Encode(x) == [a, b, c]
  {
    var hi: int, mid: int, lo: int := a - 0xE0, b - 0x80, c - 0x80;
    var n := hi * 4096 + mid * 64 + lo;
    assert n / 64 == hi * 64 + mid && n % 64 == lo && n / 4096 == hi && (hi * 64 + mid) % 64 == mid;
    assert hi == 0x0D ==> n < 0xD800;
    assert hi > 0x0D ==> n >= 0xE000;
    x := n;
  }

  lemma FourByteRune(a: octet, b: octet, c: octet, d: octet) returns (x: Scalar)
    requires 0xF0 <= a <= 0xF4 && Continuation(b) && Continuation(c) && Continuation(d)
    requires (a == 0xF0 ==> b >= 0x90) && (a == 0xF4 ==> b <= 0x8F)
    ensures Encode(x) == [a, b, c, d]
  {
    var i: int, j: int, k: int, l: int := a - 0xF0, b - 0x80, c - 0x80, d - 0x80;
    var top := i * 64 + j;
    var n := top * 4096 + k * 64 + l;
    assert n / 64 == top * 64 + k && n % 64 == l && n / 4096 == top && n / 262144 == i;
    assert (top * 64 + k) % 64 == k && top % 64 == j;
    assert 0x10 <= top < 0x110;
    x := n;
  }

  /** Every well-formed sequence at the front is the encoding of a scalar value. */
  lemma RuneIsEncoded(s: Octets) returns (x: Scalar)
    requires RuneLen(s) > 0
    ensures s[..RuneLen(s)] == Encode(x)
  {
    var n := RuneLen(s);
    if n == 1 {
      x := s[0];
    } else if n == 2 {
      x := TwoByteRune(s[0], s[1]);
    } else if n == 3 {
      x := ThreeByteRune(s[0], s[1], s[2]);
    } else {
      x := FourByteRune(s[0], s[1], s[2], s[3]);
    }
  }

  lemma {:induction false} EncodedIsText(xs: seq<Scalar>)
    ensures Utf8(EncodeAll(xs))
  {
    if xs != [] {
      var s := EncodeAll(xs);
      EncodedIsText(xs[1..]);
      EncodedIsRune(xs[0], EncodeAll(xs[1..]));
      assert s[|Encode(xs[0])|..] == EncodeAll(xs[1..]);
    }
  }

  lemma {:induction false} TextIsEncoded(s: Octets) returns (xs: seq<Scalar>)
    requires Utf8(s)
    ensures EncodeAll(xs) == s
    decreases |s|
  {
    xs := [];
    if s != [] {
      var x := RuneIsEncoded(s);
      var rest := TextIsEncoded(s[RuneLen(s)..]);
      xs := [x] + rest;
      assert s == s[..RuneLen(s)] + s[RuneLen(s)..];
      assert xs[0] == x && xs[1..] == rest;
    }
  }

  /** The bytes encode a sequence of Unicode scalar values. */
  ghost predicate IsText(s: Octets) {
    exists xs: seq<Scalar> :: s == EncodeAll(xs)
  }

  /** A field is accepted as text exactly when it is UTF-8. */
  lemma TextIff(s: Octets)
    ensures Utf8(s) <==> IsText(s)
  {
    if Utf8(s) {
      var xs := TextIsEncoded(s);
    }
    forall xs: seq<Scalar> | s == EncodeAll(xs) ensures Utf8(s) {
      EncodedIsText(xs);
    }
  }

  // ----- broadcast IDs -----

  /** The bytes of 23456789ABCDEFGHJKMNPQRSTUVWXYZ. */
  const ALPHABET: seq<octet> := [
    50, 51, 52, 53, 54, 55, 56, 57,
    65, 66, 67, 68, 69, 70, 71, 72, 74, 75, 77, 78, 80, 81, 82, 83, 84, 85, 86, 87, 88, 89, 90
  ]

  /** The ways to type one character of an ID: itself, its small letter, and for S also the long s. */
  predicate Types(typed: Octets, c: octet) {
    typed == [c] || (65 <= c <= 90 && typed == [c + 32]) || (c == 83 && typed == [0xC5, 0xBF])
  }

  ghost predicate TypesAll(typed: Octets, id: Octets)
    decreases |id|
  {
    if id == [] then typed == []
    else exists n | 1 <= n <= |typed| :: Types(typed[..n], id[0]) && TypesAll(typed[n..], id[1..])
  }

  lemma SymbolsAre(c: octet)
    ensures IdSymbol(c) <==> c in ALPHABET
  {
    if c in ALPHABET {
      var i :| 0 <= i < |ALPHABET| && ALPHABET[i] == c;
    } else {
      assert forall i | 0 <= i < |ALPHABET| :: ALPHABET[i] != c;
      assert ALPHABET[0] == 50;
    }
  }

  lemma UpperOne(typed: Octets, c: octet)
    requires typed != [] && IdSymbol(c) && (typed[0] == c || (65 <= c <= 90 && typed[0] == c + 32))
    ensures UpperAll(typed) == [c] + UpperAll(typed[1..])
  {
    assert typed[0] <= 122;
  }

  lemma UpperHead(typed: Octets, n: nat, c: octet)
    requires 1 <= n <= |typed| && Types(typed[..n], c) && IdSymbol(c)
    ensures UpperAll(typed) == [c] + UpperAll(typed[n..])
  {
    var head := typed[..n];
    assert head[0] == typed[0];
    if n == 1 {
      UpperOne(typed, c);
    } else {
      assert head == [0xC5, 0xBF] && head[1] == typed[1];
    }
  }

  lemma {:induction false} TypedUpper(typed: Octets, id: Octets)
    requires TypesAll(typed, id) && forall c | c in id :: IdSymbol(c)
    ensures UpperAll(typed) == id
    decreases |id|
  {
    if id != [] {
      var n :| 1 <= n <= |typed| && Types(typed[..n], id[0]) && TypesAll(typed[n..], id[1..]);
      assert id[0] in id && forall c | c in id[1..] :: c in id;
      TypedUpper(typed[n..], id[1..]);
      UpperHead(typed, n, id[0]);
      assert id == [id[0]] + id[1..];
    }
  }

  lemma {:induction false} UpperTyped(typed: Octets, id: Octets)
    requires UpperAll(typed) == id && forall c | c in id :: IdSymbol(c)
    ensures TypesAll(typed, id)
    decreases |typed|
  {
    if typed != [] {
      var n := if |typed| >= 2 && typed[0] == 0xC5 && typed[1] == 0xBF then 2 else 1;
      assert id[0] in id && forall c | c in id[1..] :: c in id;
      assert id == [id[0]] + UpperAll(typed[n..]);
      assert id[1..] == UpperAll(typed[n..]);
      UpperTyped(typed[n..], id[1..]);
      assert n == 2 ==> typed[..n] == [0xC5, 0xBF];
      assert n == 1 ==> typed[..n] == [typed[0]];
      assert Types(typed[..n], id[0]);
    }
  }

  /** What is normalized to an ID is exactly what types it: six characters of the alphabet, in either case. */
  lemma NormalizesIff(typed: Octets, id: Octets)
    ensures NormalizeId(typed) == Some(id) <==> |id| == 6 && (forall c | c in id :: c in ALPHABET) && TypesAll(typed, id)
  {
    forall c | c in id ensures IdSymbol(c) <==> c in ALPHABET {
      SymbolsAre(c);
    }
    if NormalizeId(typed) == Some(id) {
      UpperTyped(typed, id);
    } else if |id| == 6 && (forall c | c in id :: c in ALPHABET) && TypesAll(typed, id) {
      TypedUpper(typed, id);
    }
  }
}
