/** Base 64 as in section 4 of RFC 4648: the standard alphabet with `=`
    padding. One writer and two readers of it meet on the wire:
    - `Encode`: Node's `toString('base64')` and Foundation's
      `base64EncodedString()` (both pad);
    - `Decode`: Foundation's `Data(base64Encoded:)`, which wants whole
      padded groups of the standard alphabet but does not check that the
      bits a padded final group leaves unused are zero (section 3.5);
    - `NodeDecode`: Node's legacy `Buffer.from(s, 'base64')`, which skips
      characters outside the standard and URL-safe alphabets and stops at
      the first `=`. */
module Base64 {
  import opened Wrappers
  import opened Bytes

  type Sextet = x: int | 0 <= x < 64

  /** The character for a 6-bit value in the standard alphabet. */
  function CharOf(v: Sextet): char
  {
    if v < 26 then (65 + v) as char
    else if v < 52 then (97 + v - 26) as char
    else if v < 62 then (48 + v - 52) as char
    else if v == 62 then '+'
    else '/'
  }

  /** The 6-bit value of a character of the standard alphabet. */
  function ValueOf(c: char): Option<Sextet>
  {
    if 'A' <= c <= 'Z' then Some(c as int - 65)
    else if 'a' <= c <= 'z' then Some(c as int - 97 + 26)
    else if '0' <= c <= '9' then Some(c as int - 48 + 52)
    else if c == '+' then Some(62)
    else if c == '/' then Some(63)
    else None
  }

  /** Node's table also maps the URL-safe `-` and `_`. */
  function NodeValueOf(c: char): (r: Option<Sextet>)
    ensures ValueOf(c).Some? ==> r == ValueOf(c)
  {
    if c == '-' then Some(62)
    else if c == '_' then Some(63)
    else ValueOf(c)
  }

  lemma CharOfInverse(v: Sextet)
    ensures ValueOf(CharOf(v)) == Some(v)
    ensures NodeValueOf(CharOf(v)) == Some(v)
    ensures CharOf(v) != '='
  {
  }

  lemma ValueOfInverse(c: char)
    requires ValueOf(c).Some?
    ensures CharOf(ValueOf(c).value) == c
  {
  }

  /** The four sextets of a three-byte group (a missing byte counts as 0). */
  function S0(a: byte): Sextet { a / 4 }
  function S1(a: byte, b: byte): Sextet { a % 4 * 16 + b / 16 }
  function S2(b: byte, c: byte): Sextet { b % 16 * 4 + c / 64 }
  function S3(c: byte): Sextet { c % 64 }

  /** The three bytes carried by four sextets. */
  function Hi(v0: Sextet, v1: Sextet): byte { v0 as int * 4 + v1 as int / 16 }
  function Mid(v1: Sextet, v2: Sextet): byte { v1 as int % 16 * 16 + v2 as int / 4 }
  function Lo(v2: Sextet, v3: Sextet): byte { v2 as int % 4 * 64 + v3 as int }

  /** Splitting bytes into sextets and joining them again are inverse. */
  lemma GroupBits(a: byte, b: byte, c: byte)
    ensures Hi(S0(a), S1(a, b)) == a
    ensures Mid(S1(a, b), S2(b, c)) == b
    ensures Lo(S2(b, c), S3(c)) == c
    ensures S1(a, 0) % 16 == 0 && S2(b, 0) % 4 == 0
  {
  }

  lemma SextetBits(v0: Sextet, v1: Sextet, v2: Sextet, v3: Sextet)
    ensures S0(Hi(v0, v1)) == v0
    ensures S1(Hi(v0, v1), Mid(v1, v2)) == v1
    ensures S2(Mid(v1, v2), Lo(v2, v3)) == v2
    ensures S3(Lo(v2, v3)) == v3
    ensures v1 % 16 == 0 ==> S1(Hi(v0, v1), 0) == v1
    ensures v2 % 4 == 0 ==> S2(Mid(v1, v2), 0) == v2
  {
  }

  /** The four characters for three bytes. */
  function Quad(a: byte, b: byte, c: byte): string
  {
    [CharOf(S0(a)), CharOf(S1(a, b)), CharOf(S2(b, c)), CharOf(S3(c))]
  }

  function Encode(b: Bytes): (s: string)
    ensures |s| == 0 <==> |b| == 0
    decreases |b|
  {
    if |b| == 0 then ""
    else if |b| == 1 then [CharOf(S0(b[0])), CharOf(S1(b[0], 0)), '=', '=']
    else if |b| == 2 then [CharOf(S0(b[0])), CharOf(S1(b[0], b[1])), CharOf(S2(b[1], 0)), '=']
    else Quad(b[0], b[1], b[2]) + Encode(b[3..])
  }

  /** Every three bytes, and a final one or two, take four characters. */
  lemma {:induction false} EncodeLength(b: Bytes)
    ensures |Encode(b)| == 4 * ((|b| + 2) / 3)
    decreases |b|
  {
    if |b| >= 3 {
      EncodeLength(b[3..]);
      assert (|b| + 2) / 3 == (|b[3..]| + 2) / 3 + 1;
    }
  }

  /** An encoding uses only the standard alphabet and the padding `=`. */
  lemma {:induction false} EncodeAlphabet(b: Bytes)
    ensures forall i | 0 <= i < |Encode(b)| :: Encode(b)[i] == '=' || ValueOf(Encode(b)[i]).Some?
    decreases |b|
  {
    var s := Encode(b);
    if |b| == 1 {
      CharOfInverse(S0(b[0]));
      CharOfInverse(S1(b[0], 0));
    } else if |b| == 2 {
      CharOfInverse(S0(b[0]));
      CharOfInverse(S1(b[0], b[1]));
      CharOfInverse(S2(b[1], 0));
    } else if |b| >= 3 {
      var q := Quad(b[0], b[1], b[2]);
      var e := Encode(b[3..]);
      assert s == q + e;
      CharOfInverse(S0(b[0]));
      CharOfInverse(S1(b[0], b[1]));
      CharOfInverse(S2(b[1], b[2]));
      CharOfInverse(S3(b[2]));
      EncodeAlphabet(b[3..]);
      forall i | 0 <= i < |s|
        ensures s[i] == '=' || ValueOf(s[i]).Some?
      {
        if i >= 4 {
          assert s[i] == e[i - 4];
        }
      }
    }
  }

  /** Three bytes from a full group of four characters. */
  function DecodeQuad(c0: char, c1: char, c2: char, c3: char): Option<Bytes>
  {
    match (ValueOf(c0), ValueOf(c1), ValueOf(c2), ValueOf(c3))
    case (Some(v0), Some(v1), Some(v2), Some(v3)) => Some([Hi(v0, v1), Mid(v1, v2), Lo(v2, v3)])
    case _ => None
  }

  /** The last group, which may carry one or two `=`. The bits the padding
      leaves unused are dropped unread. */
  function DecodeFinal(c0: char, c1: char, c2: char, c3: char): Option<Bytes>
  {
    if c2 == '=' && c3 == '=' then
      match (ValueOf(c0), ValueOf(c1))
      case (Some(v0), Some(v1)) => Some([Hi(v0, v1)])
      case _ => None
    else if c3 == '=' then
      match (ValueOf(c0), ValueOf(c1), ValueOf(c2))
      case (Some(v0), Some(v1), Some(v2)) => Some([Hi(v0, v1), Mid(v1, v2)])
      case _ => None
    else DecodeQuad(c0, c1, c2, c3)
  }

  function Decode(s: string): (r: Option<Bytes>)
    ensures r.Some? ==> |s| % 4 == 0
    ensures r.Some? ==> 3 * (|s| / 4) - 2 <= |r.value| <= 3 * (|s| / 4)
    decreases |s|
  {
    if |s| == 0 then Some([])
    else if |s| < 4 then None
    else if |s| == 4 then DecodeFinal(s[0], s[1], s[2], s[3])
    else match DecodeQuad(s[0], s[1], s[2], s[3])
      case None => None
      case Some(g) =>
        match Decode(s[4..])
        case None => None
        case Some(rest) => Some(g + rest)
  }

  /** Section 3.5 of RFC 4648: the bits a padded final group leaves unused
      are zero, so the group is the one an encoder writes. */
  predicate CanonicalFinal(c0: char, c1: char, c2: char, c3: char)
  {
    if c2 == '=' && c3 == '=' then ValueOf(c1).Some? && ValueOf(c1).value % 16 == 0
    else if c3 == '=' then ValueOf(c2).Some? && ValueOf(c2).value % 4 == 0
    else true
  }

  predicate Canonical(s: string)
  {
    |s| < 4 || CanonicalFinal(s[|s| - 4], s[|s| - 3], s[|s| - 2], s[|s| - 1])
  }

  /** The sextets Node's legacy decoder reads: characters outside both
      alphabets are skipped and the first `=` ends the input. */
  function NodeSextets(s: string): (v: seq<Sextet>)
    ensures |v| <= |s|
    decreases |s|
  {
    if |s| == 0 || s[0] == '=' then []
    else match NodeValueOf(s[0])
      case None => NodeSextets(s[1..])
      case Some(x) => [x] + NodeSextets(s[1..])
  }

  /** Groups of four sextets give three bytes; a trailing group of two or
      three gives one or two; a lone trailing sextet gives nothing. */
  function FromSextets(v: seq<Sextet>): (b: Bytes)
    ensures 4 * |b| <= 3 * |v|
    decreases |v|
  {
    if |v| < 2 then []
    else if |v| == 2 then [Hi(v[0], v[1])]
    else if |v| == 3 then [Hi(v[0], v[1]), Mid(v[1], v[2])]
    else [Hi(v[0], v[1]), Mid(v[1], v[2]), Lo(v[2], v[3])] + FromSextets(v[4..])
  }

  /** Node never fails to decode: at worst it reads fewer bytes. */
  function NodeDecode(s: string): (b: Bytes)
    ensures 4 * |b| <= 3 * |s|
  {
    FromSextets(NodeSextets(s))
  }

  lemma DecodeQuadOfQuad(a: byte, b: byte, c: byte)
    ensures var q := Quad(a, b, c); DecodeQuad(q[0], q[1], q[2], q[3]) == Some([a, b, c])
    ensures var q := Quad(a, b, c); DecodeFinal(q[0], q[1], q[2], q[3]) == Some([a, b, c])
  {
    CharOfInverse(S0(a));
    CharOfInverse(S1(a, b));
    CharOfInverse(S2(b, c));
    CharOfInverse(S3(c));
    GroupBits(a, b, c);
  }

  lemma DecodeFinalOne(v0: Sextet, v1: Sextet)
    ensures DecodeFinal(CharOf(v0), CharOf(v1), '=', '=') == Some([Hi(v0, v1)])
  {
    CharOfInverse(v0);
    CharOfInverse(v1);
  }

  lemma DecodeFinalTwo(v0: Sextet, v1: Sextet, v2: Sextet)
    ensures DecodeFinal(CharOf(v0), CharOf(v1), CharOf(v2), '=') == Some([Hi(v0, v1), Mid(v1, v2)])
  {
    CharOfInverse(v0);
    CharOfInverse(v1);
    CharOfInverse(v2);
  }

  lemma DecodeEncodeOne(a: byte)
    ensures Decode(Encode([a])) == Some([a])
  {
    var v0, v1 := S0(a), S1(a, 0);
    var s := Encode([a]);
    assert s == [CharOf(v0), CharOf(v1), '=', '='];
    assert Decode(s) == DecodeFinal(s[0], s[1], s[2], s[3]);
    assert DecodeFinal(CharOf(v0), CharOf(v1), '=', '=') == Some([a]) by {
      GroupBits(a, 0, 0);
      DecodeFinalOne(v0, v1);
    }
  }

  lemma DecodeEncodeTwo(a: byte, b: byte)
    ensures Decode(Encode([a, b])) == Some([a, b])
  {
    var v0, v1, v2 := S0(a), S1(a, b), S2(b, 0);
    var s := Encode([a, b]);
    assert s == [CharOf(v0), CharOf(v1), CharOf(v2), '='];
    assert Decode(s) == DecodeFinal(s[0], s[1], s[2], s[3]);
    assert DecodeFinal(CharOf(v0), CharOf(v1), CharOf(v2), '=') == Some([a, b]) by {
      GroupBits(a, b, 0);
      DecodeFinalTwo(v0, v1, v2);
    }
  }

  /** Decoding a full quantum followed by more text. */
  lemma DecodeCons(q: string, e: string, g: Bytes)
    requires |q| == 4 && |e| > 0
    requires DecodeQuad(q[0], q[1], q[2], q[3]) == Some(g)
    ensures Decode(q + e) == if Decode(e).Some? then Some(g + Decode(e).value) else None
  {
    var s := q + e;
    assert s[0] == q[0] && s[1] == q[1] && s[2] == q[2] && s[3] == q[3];
    assert s[4..] == e;
  }

  lemma SplitGroup(b: Bytes)
    requires |b| >= 3
    ensures b == [b[0], b[1], b[2]] + b[3..]
  {
  }

  /** Encoding takes the first group off the front. */
  lemma EncodeGroup(b: Bytes)
    requires |b| >= 3
    ensures Encode(b) == Quad(b[0], b[1], b[2]) + Encode(b[3..])
    ensures |b| > 3 ==> |Encode(b[3..])| > 0
  {
  }

  /** One step of the round trip: a full group in front of bytes that
      already round-trip. */
  lemma DecodeEncodeStep(b: Bytes)
    requires |b| >= 3
    ensures Decode(Encode(b[3..])) == Some(b[3..]) ==> Decode(Encode(b)) == Some(b)
  {
    if Decode(Encode(b[3..])) != Some(b[3..]) {
      return;
    }
    var q := Quad(b[0], b[1], b[2]);
    var e := Encode(b[3..]);
    var g := [b[0], b[1], b[2]];
    EncodeGroup(b);
    assert DecodeQuad(q[0], q[1], q[2], q[3]) == Some(g) && DecodeFinal(q[0], q[1], q[2], q[3]) == Some(g) by {
      DecodeQuadOfQuad(b[0], b[1], b[2]);
    }
    SplitGroup(b);
    if |b| == 3 {
      assert e == [] && q + e == q;
      assert |q| == 4;
      assert Decode(q) == Some(g);
      assert b == g;
      assert Decode(q + e) == Some(b);
    } else {
      DecodeCons(q, e, g);
      assert Decode(q + e) == Some(b);
    }
  }

  /** Decoding inverts encoding. */
  lemma {:induction false} DecodeEncode(b: Bytes)
    ensures Decode(Encode(b)) == Some(b)
    decreases |b|
  {
    if |b| == 0 {
    } else if |b| == 1 {
      DecodeEncodeOne(b[0]);
      assert b == [b[0]];
    } else if |b| == 2 {
      DecodeEncodeTwo(b[0], b[1]);
      assert b == [b[0], b[1]];
    } else {
      DecodeEncode(b[3..]);
      DecodeEncodeStep(b);
    }
  }

  lemma QuadOfDecodeQuad(c0: char, c1: char, c2: char, c3: char)
    requires DecodeQuad(c0, c1, c2, c3).Some?
    ensures var g := DecodeQuad(c0, c1, c2, c3).value; Quad(g[0], g[1], g[2]) == [c0, c1, c2, c3]
  {
    var v0, v1, v2, v3 := ValueOf(c0).value, ValueOf(c1).value, ValueOf(c2).value, ValueOf(c3).value;
    var g := DecodeQuad(c0, c1, c2, c3).value;
    assert g == [Hi(v0, v1), Mid(v1, v2), Lo(v2, v3)];
    assert S0(g[0]) == v0 && S1(g[0], g[1]) == v1 && S2(g[1], g[2]) == v2 && S3(g[2]) == v3 by {
      SextetBits(v0, v1, v2, v3);
    }
    assert CharOf(v0) == c0 && CharOf(v1) == c1 && CharOf(v2) == c2 && CharOf(v3) == c3 by {
      ValueOfInverse(c0);
      ValueOfInverse(c1);
      ValueOfInverse(c2);
      ValueOfInverse(c3);
    }
  }

  lemma EncodeOfDecodeFinal(c0: char, c1: char, c2: char, c3: char)
    requires DecodeFinal(c0, c1, c2, c3).Some? && CanonicalFinal(c0, c1, c2, c3)
    ensures Encode(DecodeFinal(c0, c1, c2, c3).value) == [c0, c1, c2, c3]
  {
    var b := DecodeFinal(c0, c1, c2, c3).value;
    if c2 == '=' && c3 == '=' {
      var v0, v1 := ValueOf(c0).value, ValueOf(c1).value;
      assert b == [Hi(v0, v1)];
      assert S0(b[0]) == v0 && S1(b[0], 0) == v1 by {
        SextetBits(v0, v1, 0, 0);
      }
      assert CharOf(v0) == c0 && CharOf(v1) == c1 by {
        ValueOfInverse(c0);
        ValueOfInverse(c1);
      }
    } else if c3 == '=' {
      var v0, v1, v2 := ValueOf(c0).value, ValueOf(c1).value, ValueOf(c2).value;
      assert b == [Hi(v0, v1), Mid(v1, v2)];
      assert S0(b[0]) == v0 && S1(b[0], b[1]) == v1 && S2(b[1], 0) == v2 by {
        SextetBits(v0, v1, v2, 0);
      }
      assert CharOf(v0) == c0 && CharOf(v1) == c1 && CharOf(v2) == c2 by {
        ValueOfInverse(c0);
        ValueOfInverse(c1);
        ValueOfInverse(c2);
      }
    } else {
      assert Quad(b[0], b[1], b[2]) == [c0, c1, c2, c3] by {
        QuadOfDecodeQuad(c0, c1, c2, c3);
      }
      assert Encode(b) == Quad(b[0], b[1], b[2]) + Encode(b[3..]);
      assert b[3..] == [];
    }
  }

  /** A canonical final group stays canonical behind more groups. */
  lemma CanonicalTail(q: string, e: string)
    requires |q| == 4 && |e| >= 4
    ensures Canonical(q + e) <==> Canonical(e)
  {
    var s := q + e;
    assert s[|s| - 4..] == e[|e| - 4..];
    assert s[|s| - 4] == e[|e| - 4] && s[|s| - 3] == e[|e| - 3];
    assert s[|s| - 2] == e[|e| - 2] && s[|s| - 1] == e[|e| - 1];
  }

  lemma CanonicalOne(a: byte)
    ensures Canonical(Encode([a]))
  {
    var s := Encode([a]);
    assert s == [CharOf(S0(a)), CharOf(S1(a, 0)), '=', '='];
    assert ValueOf(s[1]) == Some(S1(a, 0)) by {
      CharOfInverse(S1(a, 0));
    }
    GroupBits(a, 0, 0);
  }

  lemma CanonicalTwo(a: byte, b: byte)
    ensures Canonical(Encode([a, b]))
  {
    var s := Encode([a, b]);
    assert s == [CharOf(S0(a)), CharOf(S1(a, b)), CharOf(S2(b, 0)), '='];
    assert ValueOf(s[2]) == Some(S2(b, 0)) && s[2] != '=' by {
      CharOfInverse(S2(b, 0));
    }
    GroupBits(a, b, 0);
  }

  /** Every encoding is canonical. */
  lemma {:induction false} EncodeCanonical(b: Bytes)
    ensures Canonical(Encode(b))
    decreases |b|
  {
    if |b| == 1 {
      CanonicalOne(b[0]);
      assert b == [b[0]];
    } else if |b| == 2 {
      CanonicalTwo(b[0], b[1]);
      assert b == [b[0], b[1]];
    } else if |b| >= 3 {
      var q := Quad(b[0], b[1], b[2]);
      var e := Encode(b[3..]);
      assert Encode(b) == q + e by {
        EncodeGroup(b);
      }
      if |b| == 3 {
        assert e == [] && q + e == q;
        assert q[3] != '=' by {
          CharOfInverse(S3(b[2]));
        }
      } else {
        assert |e| >= 4 by {
          EncodeLength(b[3..]);
        }
        assert Canonical(e) by {
          EncodeCanonical(b[3..]);
        }
        CanonicalTail(q, e);
      }
    }
  }

  /** One step back: a full group in front of text that already
      re-encodes to itself. */
  lemma EncodeDecodeStep(s: string)
    requires |s| > 4 && Decode(s).Some?
    ensures Decode(s[4..]).Some?
    ensures Encode(Decode(s[4..]).value) == s[4..] ==> Encode(Decode(s).value) == s
  {
    if Encode(Decode(s[4..]).value) != s[4..] {
      return;
    }
    var g := DecodeQuad(s[0], s[1], s[2], s[3]).value;
    var rest := Decode(s[4..]).value;
    var b := Decode(s).value;
    assert b[..3] == g && b[3..] == rest by {
      assert b == g + rest;
    }
    assert Quad(b[0], b[1], b[2]) == s[..4] by {
      QuadOfDecodeQuad(s[0], s[1], s[2], s[3]);
      assert g == [b[0], b[1], b[2]];
    }
    assert Encode(b) == Quad(b[0], b[1], b[2]) + Encode(b[3..]) by {
      EncodeGroup(b);
    }
    assert s == s[..4] + s[4..];
  }

  /** Every canonical string the decoder accepts is the encoding of what
      it decodes to. */
  lemma {:induction false} EncodeDecodeCanonical(s: string)
    requires Decode(s).Some? && Canonical(s)
    ensures Encode(Decode(s).value) == s
    decreases |s|
  {
    if |s| == 4 {
      EncodeOfDecodeFinal(s[0], s[1], s[2], s[3]);
    } else if |s| > 4 {
      assert Decode(s[4..]).Some? && |s[4..]| >= 4;
      assert Canonical(s[4..]) by {
        assert s == s[..4] + s[4..];
        CanonicalTail(s[..4], s[4..]);
      }
      EncodeDecodeCanonical(s[4..]);
      EncodeDecodeStep(s);
    }
  }

  /** A string the decoder accepts re-encodes to itself exactly when it is
      canonical: the encoding of a byte string is the only canonical string
      that decodes to it. */
  lemma EncodeDecode(s: string)
    requires Decode(s).Some?
    ensures Encode(Decode(s).value) == s <==> Canonical(s)
  {
    EncodeCanonical(Decode(s).value);
    if Canonical(s) {
      EncodeDecodeCanonical(s);
    }
  }

  /** The characters of a sequence of sextets. */
  function Chars(v: seq<Sextet>): (s: string)
    ensures |s| == |v|
  {
    if |v| == 0 then "" else [CharOf(v[0])] + Chars(v[1..])
  }

  /** Node reads the sextets of well-formed characters in order. */
  lemma {:induction false} NodeSextetsPrefix(v: seq<Sextet>, rest: string)
    ensures NodeSextets(Chars(v) + rest) == v + NodeSextets(rest)
    decreases |v|
  {
    if |v| > 0 {
      var t := Chars(v[1..]) + rest;
      var c := CharOf(v[0]);
      assert Chars(v) + rest == [c] + t;
      assert NodeValueOf(c) == Some(v[0]) && c != '=' by {
        CharOfInverse(v[0]);
      }
      assert ([c] + t)[1..] == t;
      assert NodeSextets([c] + t) == [v[0]] + NodeSextets(t);
      assert NodeSextets(t) == v[1..] + NodeSextets(rest) by {
        NodeSextetsPrefix(v[1..], rest);
      }
      assert v == [v[0]] + v[1..];
    } else {
      assert Chars(v) + rest == rest;
    }
  }

  lemma NodeDecodeEncodeOne(a: byte)
    ensures NodeDecode(Encode([a])) == [a]
  {
    var v := [S0(a), S1(a, 0)];
    assert Encode([a]) == Chars(v) + "==";
    assert NodeSextets("==") == [];
    assert NodeSextets(Encode([a])) == v by {
      NodeSextetsPrefix(v, "==");
    }
    assert Hi(v[0], v[1]) == a by {
      GroupBits(a, 0, 0);
    }
  }

  lemma NodeDecodeEncodeTwo(a: byte, b: byte)
    ensures NodeDecode(Encode([a, b])) == [a, b]
  {
    var v := [S0(a), S1(a, b), S2(b, 0)];
    assert Chars(v) == [CharOf(v[0])] + ([CharOf(v[1])] + Chars(v[2..]));
    assert Encode([a, b]) == Chars(v) + "=";
    assert NodeSextets("=") == [];
    assert NodeSextets(Encode([a, b])) == v by {
      NodeSextetsPrefix(v, "=");
    }
    assert Hi(v[0], v[1]) == a && Mid(v[1], v[2]) == b by {
      GroupBits(a, b, 0);
    }
  }

  lemma CharsOfQuad(a: byte, b: byte, c: byte)
    ensures Chars([S0(a), S1(a, b), S2(b, c), S3(c)]) == Quad(a, b, c)
  {
    var v := [S0(a), S1(a, b), S2(b, c), S3(c)];
    assert v[3..][1..] == [];
    assert Chars(v[3..]) == [CharOf(v[3])];
    assert v[2..][1..] == v[3..];
    assert Chars(v[2..]) == [CharOf(v[2]), CharOf(v[3])];
    assert v[1..][1..] == v[2..];
    assert Chars(v[1..]) == [CharOf(v[1]), CharOf(v[2]), CharOf(v[3])];
  }

  /** Reading a full group in front of any encoding. */
  lemma NodeDecodeQuad(b: Bytes)
    requires |b| >= 3
    ensures NodeDecode(Encode(b)) == [b[0], b[1], b[2]] + NodeDecode(Encode(b[3..]))
  {
    var v := [S0(b[0]), S1(b[0], b[1]), S2(b[1], b[2]), S3(b[2])];
    var e := Encode(b[3..]);
    CharsOfQuad(b[0], b[1], b[2]);
    assert Encode(b) == Chars(v) + e;
    var w := NodeSextets(Encode(b));
    assert w == v + NodeSextets(e) by {
      NodeSextetsPrefix(v, e);
    }
    assert w[4..] == NodeSextets(e);
    assert Hi(v[0], v[1]) == b[0] && Mid(v[1], v[2]) == b[1] && Lo(v[2], v[3]) == b[2] by {
      GroupBits(b[0], b[1], b[2]);
    }
    assert FromSextets(w) == [b[0], b[1], b[2]] + FromSextets(w[4..]);
  }

  /** Node reads back exactly the bytes any padded encoding carries. */
  lemma {:induction false} NodeDecodeEncode(b: Bytes)
    ensures NodeDecode(Encode(b)) == b
    decreases |b|
  {
    if |b| == 0 {
    } else if |b| == 1 {
      NodeDecodeEncodeOne(b[0]);
      assert b == [b[0]];
    } else if |b| == 2 {
      NodeDecodeEncodeTwo(b[0], b[1]);
      assert b == [b[0], b[1]];
    } else {
      NodeDecodeQuad(b);
      NodeDecodeEncode(b[3..]);
      assert b == [b[0], b[1], b[2]] + b[3..];
    }
  }
}
