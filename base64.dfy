/** Base64 encoding with the standard alphabet and '=' padding, as defined in
    section 4 of RFC 4648 (the encoding Python's `b64encode` produces), and the
    strict decoder that inverts it. */
module Base64 {
  import opened Results

  type byte = b: int | 0 <= b < 256

  /** A 6-bit group: the index of one alphabet character. */
  type sextet = i: int | 0 <= i < 64

  /** The 64 characters of the alphabet of section 4 of RFC 4648. */
  predicate IsDigit(c: char)
  {
    'A' <= c <= 'Z' || 'a' <= c <= 'z' || '0' <= c <= '9' || c == '+' || c == '/'
  }

  /** Table 1 of RFC 4648, value to character. */
  function CharOf(i: sextet): (c: char)
    ensures IsDigit(c)
  {
    if i < 26 then (65 + i) as char
    else if i < 52 then (97 + i - 26) as char
    else if i < 62 then (48 + i - 52) as char
    else if i == 62 then '+'
    else '/'
  }

  /** Table 1 of RFC 4648, character to value. */
  function IndexOf(c: char): (i: sextet)
    requires IsDigit(c)
    ensures CharOf(i) == c
  {
    if 'A' <= c <= 'Z' then c as int - 65
    else if 'a' <= c <= 'z' then c as int - 97 + 26
    else if '0' <= c <= '9' then c as int - 48 + 52
    else if c == '+' then 62
    else 63
  }

  lemma IndexOfCharOf(i: sextet)
    ensures IndexOf(CharOf(i)) == i
  {
  }

  /** The 6-bit groups of one to three bytes, most significant bits first, the
      last group filled up with zero bits: two, three or four groups. */
  function Split6(g: seq<byte>): (v: seq<sextet>)
    requires 1 <= |g| <= 3
    ensures |v| == |g| + 1
  {
    if |g| == 1 then [g[0] / 4, g[0] % 4 * 16]
    else if |g| == 2 then [g[0] / 4, g[0] % 4 * 16 + g[1] / 16, g[1] % 16 * 4]
    else [g[0] / 4, g[0] % 4 * 16 + g[1] / 16, g[1] % 16 * 4 + g[2] / 64, g[2] % 64]
  }

  /** Whether the bits of two or three groups that do not make up a whole
      byte are zero, as section 3.5 of RFC 4648 requires of an encoder. */
  predicate PadBitsZero(v: seq<sextet>)
    requires 2 <= |v| <= 4
  {
    match |v|
    case 2 => v[1] % 16 == 0
    case 3 => v[2] % 4 == 0
    case _ => true
  }

  /** The bytes held in two to four 6-bit groups; leftover bits are dropped. */
  function Join8(v: seq<sextet>): (g: seq<byte>)
    requires 2 <= |v| <= 4
    ensures |g| == |v| - 1
  {
    var x: byte := v[0] as int * 4 + v[1] / 16;
    if |v| == 2 then [x]
    else
      var y: byte := v[1] as int % 16 * 16 + v[2] / 4;
      if |v| == 3 then [x, y] else [x, y, v[2] as int % 4 * 64 + v[3]]
  }

  /** The characters of a sequence of groups. */
  function Digits(v: seq<sextet>): (s: string)
    ensures |s| == |v| && forall k :: 0 <= k < |v| ==> s[k] == CharOf(v[k])
  {
    seq(|v|, k requires 0 <= k < |v| => CharOf(v[k]))
  }

  /** The groups a sequence of alphabet characters stands for. */
  function Values(s: string): (v: seq<sextet>)
    requires forall k :: 0 <= k < |s| ==> IsDigit(s[k])
    ensures |v| == |s| && forall k :: 0 <= k < |s| ==> v[k] == IndexOf(s[k])
  {
    seq(|s|, k requires 0 <= k < |s| => IndexOf(s[k]))
  }

  /** One quantum of section 4 of RFC 4648: one to three bytes as four
      characters, a final quantum of one or two bytes padded with "==" or "=". */
  function EncodeQuantum(g: seq<byte>): (q: string)
    requires 1 <= |g| <= 3
    ensures |q| == 4 && IsDigit(q[0]) && IsDigit(q[1])
    ensures IsDigit(q[2]) <==> |g| >= 2
    ensures IsDigit(q[3]) <==> |g| == 3
    ensures |g| < 3 ==> q[3] == '=' && (|g| == 1 ==> q[2] == '=')
  {
    Digits(Split6(g)) + if |g| == 1 then "==" else if |g| == 2 then "=" else ""
  }

  /** How many characters of a four-character quantum carry data: the ones
      before "==" or "=" at its end. */
  function DataLength(q: string): (n: nat)
    requires |q| == 4
    ensures 2 <= n <= 4 && forall k :: n <= k < 4 ==> q[k] == '='
  {
    if q[2] == '=' && q[3] == '=' then 2 else if q[3] == '=' then 3 else 4
  }

  /** Decodes four characters: all from the alphabet gives three bytes,
      "xx==" one byte and "xxx=" two; bits left over by a padded quantum must be
      zero (section 3.5 of RFC 4648). Anything else is rejected. */
  function DecodeQuantum(q: string): (g: Option<seq<byte>>)
    requires |q| == 4
  {
    var n := DataLength(q);
    if exists k :: 0 <= k < n && !IsDigit(q[k]) then None
    else
      var v := Values(q[..n]);
      if PadBitsZero(v) then Some(Join8(v)) else None
  }

  /** The shape of an encoded text: alphabet characters, of which only the
      last two may be replaced by padding. */
  predicate Padded(r: string)
  {
    forall k :: 0 <= k < |r| ==> IsDigit(r[k]) || (|r| - 2 <= k && r[k] == '=')
  }

  /** An encoded quantum is an encoded text. */
  lemma QuantumPadded(g: seq<byte>)
    requires 1 <= |g| <= 3
    ensures Padded(EncodeQuantum(g))
  {
    var q := EncodeQuantum(g);
    forall k | 0 <= k < 4
      ensures IsDigit(q[k]) || (2 <= k && q[k] == '=')
    {
    }
  }

  /** A full quantum followed by an encoded text is an encoded text. */
  lemma PaddedAfterQuantum(q: string, rest: string)
    requires |q| == 4 && forall k :: 0 <= k < 4 ==> IsDigit(q[k])
    requires Padded(rest)
    ensures Padded(q + rest)
  {
    forall k | 0 <= k < |q + rest|
      ensures IsDigit((q + rest)[k]) || (|q + rest| - 2 <= k && (q + rest)[k] == '=')
    {
      if k >= 4 {
        assert (q + rest)[k] == rest[k - 4];
      }
    }
  }

  /** Encodes the bytes quantum by quantum. */
  function Encode(s: seq<byte>): (r: string)
    ensures |r| == 4 * ((|s| + 2) / 3) && Padded(r)
    decreases |s|
  {
    if |s| == 0 then []
    else if |s| <= 3 then
      QuantumPadded(s);
      EncodeQuantum(s)
    else
      var q, rest := EncodeQuantum(s[..3]), Encode(s[3..]);
      PaddedAfterQuantum(q, rest);
      assert (|s| + 2) / 3 == (|s| - 1) / 3 + 1;
      q + rest
  }

  /** The quanta of the test vectors of section 10 of RFC 4648. */
  lemma QuantumVectors()
    ensures EncodeQuantum([102]) == "Zg=="
    ensures EncodeQuantum([102, 111]) == "Zm8="
    ensures EncodeQuantum([102, 111, 111]) == "Zm9v"
    ensures EncodeQuantum([98]) == "Yg=="
    ensures EncodeQuantum([98, 97]) == "YmE="
    ensures EncodeQuantum([98, 97, 114]) == "YmFy"
  {
    assert Split6([102]) == [25, 32];
    assert Split6([102, 111]) == [25, 38, 60];
    assert Split6([102, 111, 111]) == [25, 38, 61, 47];
    assert Split6([98]) == [24, 32];
    assert Split6([98, 97]) == [24, 38, 4];
    assert Split6([98, 97, 114]) == [24, 38, 5, 50];
  }

  /** The test vectors of section 10 of RFC 4648 ("f", "fo", "foo", "foob",
      "fooba", "foobar"): they fix the alphabet, the bit order and the padding. */
  lemma TestVectors()
    ensures Encode([]) == ""
    ensures Encode([102]) == "Zg=="
    ensures Encode([102, 111]) == "Zm8="
    ensures Encode([102, 111, 111]) == "Zm9v"
    ensures Encode([102, 111, 111, 98]) == "Zm9vYg=="
    ensures Encode([102, 111, 111, 98, 97]) == "Zm9vYmE="
    ensures Encode([102, 111, 111, 98, 97, 114]) == "Zm9vYmFy"
  {
    QuantumVectors();
    var foo: seq<byte> := [102, 111, 111];
    LongVector([98], "Yg==");
    assert foo + [98] == [102, 111, 111, 98] && "Zm9v" + "Yg==" == "Zm9vYg==";
    LongVector([98, 97], "YmE=");
    assert foo + [98, 97] == [102, 111, 111, 98, 97] && "Zm9v" + "YmE=" == "Zm9vYmE=";
    LongVector([98, 97, 114], "YmFy");
    assert foo + [98, 97, 114] == [102, 111, 111, 98, 97, 114] && "Zm9v" + "YmFy" == "Zm9vYmFy";
  }

  /** "foo" followed by one more quantum. */
  lemma LongVector(rest: seq<byte>, q: string)
    requires 1 <= |rest| <= 3 && EncodeQuantum(rest) == q
    ensures Encode([102, 111, 111] + rest) == "Zm9v" + q
  {
    QuantumVectors();
    var s: seq<byte> := [102, 111, 111] + rest;
    assert s[..3] == [102, 111, 111] && s[3..] == rest;
  }

  /** Decodes a padded Base64 text; rejects characters outside the alphabet,
      padding anywhere but in the last quantum, a length that is not a multiple
      of four, and non-zero pad bits. */
  function Decode(r: string): (s: Option<seq<byte>>)
    decreases |r|
  {
    if |r| == 0 then Some([])
    else if |r| < 4 then None
    else
      match DecodeQuantum(r[..4])
      case None => None
      case Some(g) =>
        if |r| == 4 then Some(g)
        else if |g| < 3 then None
        else
          match Decode(r[4..])
          case None => None
          case Some(rest) => Some(g + rest)
  }


  /** Regrouping the 6-bit groups of a quantum gives its bytes back. */
  lemma JoinSplit(g: seq<byte>)
    requires 1 <= |g| <= 3
    ensures PadBitsZero(Split6(g)) && Join8(Split6(g)) == g
  {
  }

  /** Regrouping bytes into 6-bit groups gives back any groups whose
      leftover bits are zero. */
  lemma SplitJoin(v: seq<sextet>)
    requires 2 <= |v| <= 4 && PadBitsZero(v)
    ensures Split6(Join8(v)) == v
  {
    var a: int, b: int := v[0], v[1];
    assert (a * 4 + b / 16) / 4 == a && (a * 4 + b / 16) % 4 == b / 16;
    if |v| == 2 {
      assert b == b / 16 * 16;
    } else {
      var c: int := v[2];
      assert (b % 16 * 16 + c / 4) / 16 == b % 16 && (b % 16 * 16 + c / 4) % 16 == c / 4;
      if |v| == 3 {
        assert c == c / 4 * 4;
      } else {
        var d: int := v[3];
        assert (c % 4 * 64 + d) / 64 == c % 4 && (c % 4 * 64 + d) % 64 == d;
      }
    }
  }

  lemma ValuesDigits(v: seq<sextet>)
    ensures Values(Digits(v)) == v
  {
    forall k | 0 <= k < |v| {
      IndexOfCharOf(v[k]);
    }
  }

  lemma DigitsValues(s: string)
    requires forall k :: 0 <= k < |s| ==> IsDigit(s[k])
    ensures Digits(Values(s)) == s
  {
  }

  /** Decoding an encoded quantum gives its bytes back. */
  lemma QuantumRoundTrip(g: seq<byte>)
    requires 1 <= |g| <= 3
    ensures DecodeQuantum(EncodeQuantum(g)) == Some(g)
  {
    var q, v := EncodeQuantum(g), Split6(g);
    assert DataLength(q) == |v|;
    assert q[..|v|] == Digits(v);
    ValuesDigits(v);
    JoinSplit(g);
  }

  /** A quantum the decoder accepts is the encoding of what it decodes to. */
  lemma QuantumCanonical(q: string, g: seq<byte>)
    requires |q| == 4 && DecodeQuantum(q) == Some(g)
    ensures 1 <= |g| <= 3 && EncodeQuantum(g) == q
  {
    var n := DataLength(q);
    var v := Values(q[..n]);
    assert g == Join8(v);
    SplitJoin(v);
    DigitsValues(q[..n]);
    assert q == q[..n] + q[n..];
  }

  /** Decoding an encoding gives the original bytes back. */
  lemma {:induction false} DecodeEncode(s: seq<byte>)
    ensures Decode(Encode(s)) == Some(s)
    decreases |s|
  {
    if |s| == 0 {
    } else if |s| <= 3 {
      QuantumRoundTrip(s);
      assert Encode(s)[..4] == EncodeQuantum(s);
    } else {
      var r := Encode(s);
      QuantumRoundTrip(s[..3]);
      assert r[..4] == EncodeQuantum(s[..3]);
      assert r[4..] == Encode(s[3..]);
      DecodeEncode(s[3..]);
      assert s == s[..3] + s[3..];
    }
  }

  /** Every text the decoder accepts is the encoding of what it decodes to:
      with DecodeEncode, Decode(r) == Some(s) exactly when Encode(s) == r. */
  lemma {:induction false} EncodeDecode(r: string, s: seq<byte>)
    requires Decode(r) == Some(s)
    ensures Encode(s) == r
    decreases |r|
  {
    if |r| == 0 {
    } else {
      var g := DecodeQuantum(r[..4]).value;
      QuantumCanonical(r[..4], g);
      if |r| == 4 {
        assert s == g;
      } else {
        var rest := Decode(r[4..]).value;
        EncodeDecode(r[4..], rest);
        assert s == g + rest;
        assert s[..3] == g && s[3..] == rest;
        assert r == r[..4] + r[4..];
      }
    }
  }
}
