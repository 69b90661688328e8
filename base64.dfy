/**
 * Base 64 encoding as defined in section 4 of RFC 4648: three octets become
 * four characters of the 64-character alphabet, and a final group of one or
 * two octets is padded with "==" or "=".
 *
 * The decoder is strict: the text must be a whole number of four-character
 * groups, padding may only close the last group, and every other character
 * must belong to the alphabet. Like CPython's decoder, it ignores the unused
 * low bits of a padded final group.
 */
module Base64 {
  import opened Wrappers

  type Byte = x: int | 0 <= x < 256
  type Sextet = x: int | 0 <= x < 64

  const Pad: char := '='

  /** The value of an alphabet character (Table 1 of RFC 4648), or None. */
  function SextetOf(c: char): Option<Sextet>
  {
    if 'A' <= c <= 'Z' then Some(c as int - 'A' as int)
    else if 'a' <= c <= 'z' then Some(c as int - 'a' as int + 26)
    else if '0' <= c <= '9' then Some(c as int - '0' as int + 52)
    else if c == '+' then Some(62)
    else if c == '/' then Some(63)
    else None
  }

  predicate InAlphabet(c: char)
  {
    SextetOf(c).Some?
  }

  /** The alphabet character that encodes `v`. */
  function CharOf(v: Sextet): (c: char)
    ensures SextetOf(c) == Some(v)
    ensures c != Pad
  {
    if v < 26 then ('A' as int + v) as char
    else if v < 52 then ('a' as int + v - 26) as char
    else if v < 62 then ('0' as int + v - 52) as char
    else if v == 62 then '+'
    else '/'
  }

  /** Four characters for the three octets `x`, `y`, `z`. */
  function EncodeGroup(x: Byte, y: Byte, z: Byte): string
  {
    [CharOf(x / 4), CharOf((x % 4) * 16 + y / 16), CharOf((y % 16) * 4 + z / 64), CharOf(z % 64)]
  }

  /** The encoding of `b`: full groups, then a padded group for one or two left-over octets. */
  function Encode(b: seq<Byte>): (s: string)
    ensures |s| % 4 == 0 && (|b| > 0 <==> |s| > 0)
    decreases |b|
  {
    if |b| == 0 then ""
    else if |b| == 1 then [CharOf(b[0] / 4), CharOf((b[0] % 4) * 16), Pad, Pad]
    else if |b| == 2 then
      [CharOf(b[0] / 4), CharOf((b[0] % 4) * 16 + b[1] / 16), CharOf((b[1] % 16) * 4), Pad]
    else
      var rest := Encode(b[3..]);
      WholeGroupsAfterOne(|rest|);
      EncodeGroup(b[0], b[1], b[2]) + rest
  }

  /** One more group keeps a length a whole number of groups. */
  lemma WholeGroupsAfterOne(n: nat)
    requires n % 4 == 0
    ensures (4 + n) % 4 == 0
  {
  }

  /** The three octets packed in four sextets. */
  function Octets(a: Sextet, b: Sextet, c: Sextet, d: Sextet): seq<Byte>
  {
    [a * 4 + b / 16, (b % 16) * 16 + c / 4, (c % 4) * 64 + d]
  }

  /** Decodes one unpadded group of four characters. */
  function DecodeGroup(q: string): Option<seq<Byte>>
    requires |q| == 4
  {
    match (SextetOf(q[0]), SextetOf(q[1]), SextetOf(q[2]), SextetOf(q[3]))
    case (Some(a), Some(b), Some(c), Some(d)) => Some(Octets(a, b, c, d))
    case _ => None
  }

  /** Decodes the last group, which may carry one or two padding characters. */
  function DecodeFinalGroup(q: string): Option<seq<Byte>>
    requires |q| == 4
  {
    if q[2] == Pad && q[3] == Pad then
      match (SextetOf(q[0]), SextetOf(q[1]))
      case (Some(a), Some(b)) => Some(Octets(a, b, 0, 0)[..1])
      case _ => None
    else if q[3] == Pad then
      match (SextetOf(q[0]), SextetOf(q[1]), SextetOf(q[2]))
      case (Some(a), Some(b), Some(c)) => Some(Octets(a, b, c, 0)[..2])
      case _ => None
    else DecodeGroup(q)
  }

  /**
   * The texts the decoder accepts, stated without reference to it: whole
   * groups, alphabet characters everywhere except that the last character,
   * or the last two, may be padding.
   */
  predicate Wellformed(s: string)
  {
    && |s| % 4 == 0
    && (forall i :: 0 <= i < |s| - 2 ==> InAlphabet(s[i]))
    && (|s| > 0 ==>
          && (InAlphabet(s[|s| - 1]) || s[|s| - 1] == Pad)
          && (InAlphabet(s[|s| - 2]) || (s[|s| - 2] == Pad && s[|s| - 1] == Pad)))
  }

  /** Decodes `s`; None when `s` is not well-formed base 64. */
  function Decode(s: string): (r: Option<seq<Byte>>)
    ensures r.Some? ==> |r.value| <= 3 * (|s| / 4)
    decreases |s|
  {
    if |s| == 0 then Some([])
    else if |s| % 4 != 0 then None
    else if |s| == 4 then DecodeFinalGroup(s)
    else
      match DecodeGroup(s[..4])
      case None => None
      case Some(g) =>
        match Decode(s[4..])
        case None => None
        case Some(rest) => Some(g + rest)
  }

  lemma SplitAt(k: int, m: int, n: int)
    requires n == 4 || n == 16 || n == 64
    requires 0 <= m < n
    ensures (k * n + m) / n == k && (k * n + m) % n == m
  {
  }

  /** The octets of a group survive the repacking into sextets and back. */
  lemma {:induction false} OctetsOfGroup(x: Byte, y: Byte, z: Byte)
    ensures Octets(x / 4, (x % 4) * 16 + y / 16, (y % 16) * 4 + z / 64, z % 64) == [x, y, z]
  {
    SplitAt(x % 4, y / 16, 16);
    SplitAt(y % 16, z / 64, 4);
  }

  lemma GroupRoundTrip(x: Byte, y: Byte, z: Byte)
    ensures DecodeGroup(EncodeGroup(x, y, z)) == Some([x, y, z])
  {
    var q := EncodeGroup(x, y, z);
    assert SextetOf(q[0]) == Some(x / 4);
    assert SextetOf(q[1]) == Some((x % 4) * 16 + y / 16);
    assert SextetOf(q[2]) == Some((y % 16) * 4 + z / 64);
    assert SextetOf(q[3]) == Some(z % 64);
    OctetsOfGroup(x, y, z);
  }

  lemma FinalGroupOfOne(x: Byte)
    ensures DecodeFinalGroup([CharOf(x / 4), CharOf((x % 4) * 16), Pad, Pad]) == Some([x])
  {
    var q := [CharOf(x / 4), CharOf((x % 4) * 16), Pad, Pad];
    assert SextetOf(q[0]) == Some(x / 4);
    assert SextetOf(q[1]) == Some((x % 4) * 16);
    SplitAt(x % 4, 0, 16);
    var o := Octets(x / 4, (x % 4) * 16, 0, 0);
    assert o[..1] == [x];
    assert DecodeFinalGroup(q) == Some(o[..1]);
  }

  lemma FinalGroupOfTwo(x: Byte, y: Byte)
    ensures DecodeFinalGroup([CharOf(x / 4), CharOf((x % 4) * 16 + y / 16), CharOf((y % 16) * 4), Pad])
            == Some([x, y])
  {
    var q := [CharOf(x / 4), CharOf((x % 4) * 16 + y / 16), CharOf((y % 16) * 4), Pad];
    assert SextetOf(q[0]) == Some(x / 4);
    assert SextetOf(q[1]) == Some((x % 4) * 16 + y / 16);
    assert SextetOf(q[2]) == Some((y % 16) * 4);
    assert q[2] != Pad;
    OctetsOfGroup(x, y, 0);
    var o := Octets(x / 4, (x % 4) * 16 + y / 16, (y % 16) * 4, 0);
    assert o[..2] == [x, y];
    assert DecodeFinalGroup(q) == Some(o[..2]);
  }

  lemma RoundTripOfOne(b: seq<Byte>)
    requires |b| == 1
    ensures Decode(Encode(b)) == Some(b)
  {
    FinalGroupOfOne(b[0]);
    var s := Encode(b);
    assert s == [CharOf(b[0] / 4), CharOf((b[0] % 4) * 16), Pad, Pad];
    assert Decode(s) == DecodeFinalGroup(s);
    assert b == [b[0]];
  }

  lemma RoundTripOfTwo(b: seq<Byte>)
    requires |b| == 2
    ensures Decode(Encode(b)) == Some(b)
  {
    var x, y := b[0], b[1];
    assert b == [x, y];
    var s := [CharOf(x / 4), CharOf((x % 4) * 16 + y / 16), CharOf((y % 16) * 4), Pad];
    assert Encode([x, y]) == s;
    FinalGroupOfTwo(x, y);
    assert Decode(s) == DecodeFinalGroup(s);
  }

  lemma RoundTripOfThree(b: seq<Byte>)
    requires |b| == 3
    ensures Decode(Encode(b)) == Some(b)
  {
    GroupRoundTrip(b[0], b[1], b[2]);
    var g := EncodeGroup(b[0], b[1], b[2]);
    assert Encode(b) == g + Encode(b[3..]);
    assert b[3..] == [];
    assert Encode(b) == g;
    assert b == [b[0], b[1], b[2]];
    assert g[3] != Pad;
  }

  /** Decoding inverts encoding, for every octet sequence. */
  lemma {:induction false} DecodeEncode(b: seq<Byte>)
    ensures Decode(Encode(b)) == Some(b)
    decreases |b|
  {
    if |b| == 1 {
      RoundTripOfOne(b);
    } else if |b| == 2 {
      RoundTripOfTwo(b);
    } else if |b| == 3 {
      RoundTripOfThree(b);
    } else if |b| > 3 {
      assert b == [b[0], b[1], b[2]] + b[3..];
      DecodeEncode(b[3..]);
      RoundTripStep(b);
    }
  }

  /** A full group in front of a longer well-formed text decodes to its octets in front. */
  lemma DecodeAfterGroup(g: string, t: string, octets: seq<Byte>, rest: seq<Byte>)
    requires |g| == 4 && DecodeGroup(g) == Some(octets)
    requires |t| >= 4 && |t| % 4 == 0 && Decode(t) == Some(rest)
    ensures Decode(g + t) == Some(octets + rest)
  {
    var s := g + t;
    assert |s| % 4 == 0 && |s| != 4;
    assert s[..4] == g;
    assert s[4..] == t;
  }

  lemma EncodeInFront(b: seq<Byte>)
    requires |b| > 3
    ensures Encode(b) == EncodeGroup(b[0], b[1], b[2]) + Encode(b[3..])
    ensures |Encode(b[3..])| >= 4
  {
  }

  /** One full group in front of a text that round-trips. */
  lemma RoundTripStep(b: seq<Byte>)
    requires |b| > 3
    requires Decode(Encode(b[3..])) == Some(b[3..])
    ensures Decode(Encode(b)) == Some([b[0], b[1], b[2]] + b[3..])
  {
    EncodeInFront(b);
    GroupRoundTrip(b[0], b[1], b[2]);
    DecodeAfterGroup(EncodeGroup(b[0], b[1], b[2]), Encode(b[3..]), [b[0], b[1], b[2]], b[3..]);
  }

  lemma GroupSucceedsIff(q: string)
    requires |q| == 4
    ensures DecodeGroup(q).Some? <==> forall i :: 0 <= i < 4 ==> InAlphabet(q[i])
  {
    if forall i :: 0 <= i < 4 ==> InAlphabet(q[i]) {
      assert InAlphabet(q[0]) && InAlphabet(q[1]) && InAlphabet(q[2]) && InAlphabet(q[3]);
    }
  }

  lemma FinalGroupSucceedsIff(q: string)
    requires |q| == 4
    ensures DecodeFinalGroup(q).Some? <==> Wellformed(q)
  {
    GroupSucceedsIff(q);
    if q[2] == Pad && q[3] == Pad {
      assert Wellformed(q) <==> InAlphabet(q[0]) && InAlphabet(q[1]);
    } else if q[3] == Pad {
      assert Wellformed(q) <==> InAlphabet(q[0]) && InAlphabet(q[1]) && InAlphabet(q[2]);
    } else {
      assert Wellformed(q) <==> InAlphabet(q[0]) && InAlphabet(q[1]) && InAlphabet(q[2]) && InAlphabet(q[3]);
    }
  }

  /** A text longer than one group is well-formed iff its first group is all alphabet and the rest is well-formed. */
  lemma WellformedSplit(s: string)
    requires |s| > 4 && |s| % 4 == 0
    ensures Wellformed(s) <==> (forall i :: 0 <= i < 4 ==> InAlphabet(s[i])) && Wellformed(s[4..])
  {
    var t := s[4..];
    assert |t| == |s| - 4;
    assert t[|t| - 1] == s[|s| - 1] && t[|t| - 2] == s[|s| - 2];
    if Wellformed(s) {
      forall i | 0 <= i < |t| - 2 ensures InAlphabet(t[i]) {
        assert t[i] == s[i + 4];
      }
    }
    if (forall i :: 0 <= i < 4 ==> InAlphabet(s[i])) && Wellformed(t) {
      forall i | 0 <= i < |s| - 2 ensures InAlphabet(s[i]) {
        if i >= 4 {
          assert s[i] == t[i - 4];
        }
      }
    }
  }

  /** The decoder accepts exactly the well-formed texts. */
  lemma {:induction false} DecodeSucceedsIff(s: string)
    ensures Decode(s).Some? <==> Wellformed(s)
    decreases |s|
  {
    if |s| == 4 {
      FinalGroupSucceedsIff(s);
    } else if |s| > 4 && |s| % 4 == 0 {
      GroupSucceedsIff(s[..4]);
      DecodeSucceedsIff(s[4..]);
      WellformedSplit(s);
      assert forall i :: 0 <= i < 4 ==> s[..4][i] == s[i];
    }
  }


  /** A non-empty text that decodes yields at least one octet. */
  lemma DecodeNonEmpty(s: string)
    requires s != "" && Decode(s).Some?
    ensures |Decode(s).value| > 0
  {
    if |s| > 4 {
      var g := DecodeGroup(s[..4]);
      assert g.Some? && |g.value| == 3;
    }
  }
}
