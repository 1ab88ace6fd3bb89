/** Standard padded Base64 (section 4 of RFC 4648), the MIME line wrapping that
    `to_base64(MIME)` adds (a CRLF after every 76 characters), and the
    `replace("\r\n", "")` that takes the wrapping out again. */
module Base64 {
  import opened Wrappers

  /** Width of a MIME line. */
  const MimeLineLength: nat := 76

  /** The character of the standard alphabet for a 6-bit value. */
  function Char(n: int): (c: char)
    requires 0 <= n < 64
    ensures Index(c) == Some(n)
  {
    if n < 26 then ('A' as int + n) as char
    else if n < 52 then ('a' as int + n - 26) as char
    else if n < 62 then ('0' as int + n - 52) as char
    else if n == 62 then '+'
    else '/'
  }

  /** The 6-bit value of an alphabet character; `None` for anything else,
      including the pad character `=`. */
  function Index(c: char): Option<int>
  {
    if 'A' <= c <= 'Z' then Some(c as int - 'A' as int)
    else if 'a' <= c <= 'z' then Some(c as int - 'a' as int + 26)
    else if '0' <= c <= '9' then Some(c as int - '0' as int + 52)
    else if c == '+' then Some(62)
    else if c == '/' then Some(63)
    else None
  }

  /** A character that may appear in an encoding: the alphabet or the pad. */
  predicate IsEncodingChar(c: char)
  {
    Index(c).Some? || c == '='
  }

  /** The four characters for one group of three bytes. */
  function Quantum(b0: byte, b1: byte, b2: byte): string
  {
    [Char(b0 / 4), Char((b0 % 4) * 16 + b1 / 16), Char((b1 % 16) * 4 + b2 / 64), Char(b2 % 64)]
  }

  /** The padded encoding of a final group of one or two bytes. */
  function Tail(v: seq<byte>): string
    requires 1 <= |v| <= 2
  {
    if |v| == 1 then [Char(v[0] / 4), Char((v[0] % 4) * 16), '=', '=']
    else [Char(v[0] / 4), Char((v[0] % 4) * 16 + v[1] / 16), Char((v[1] % 16) * 4), '=']
  }

  /** Standard Base64 with padding: four characters per started group of three
      bytes, drawn from the alphabet and `=`. */
  function Encode(v: seq<byte>): (s: string)
    ensures |s| == 4 * ((|v| + 2) / 3)
    ensures forall i :: 0 <= i < |s| ==> IsEncodingChar(s[i])
  {
    if v == [] then []
    else if |v| <= 2 then Tail(v)
    else Quantum(v[0], v[1], v[2]) + Encode(v[3..])
  }

  /** The bytes of one four-character group; `None` if it is malformed. */
  function DecodeGroup(g: string): Option<seq<byte>>
    requires |g| == 4
  {
    match (Index(g[0]), Index(g[1]), Index(g[2]), Index(g[3]))
    case (Some(c0), Some(c1), Some(c2), Some(c3)) =>
      Some([c0 * 4 + c1 / 16, (c1 % 16) * 16 + c2 / 4, (c2 % 4) * 64 + c3])
    case (Some(c0), Some(c1), Some(c2), None) =>
      if g[3] == '=' then Some([c0 * 4 + c1 / 16, (c1 % 16) * 16 + c2 / 4]) else None
    case (Some(c0), Some(c1), None, None) =>
      if g[2] == '=' && g[3] == '=' then Some([c0 * 4 + c1 / 16]) else None
    case _ => None
  }

  /** Decodes a padded Base64 string; padding is accepted in the last group only. */
  function Decode(s: string): Option<seq<byte>>
  {
    if s == [] then Some([])
    else if |s| < 4 then None
    else match DecodeGroup(s[..4])
      case None => None
      case Some(g) =>
        if |g| < 3 && |s| > 4 then None
        else match Decode(s[4..])
          case None => None
          case Some(rest) => Some(g + rest)
  }

  lemma QuantumRoundTrip(b0: byte, b1: byte, b2: byte)
    ensures DecodeGroup(Quantum(b0, b1, b2)) == Some([b0, b1, b2])
  {
    var c1, c2 := (b0 % 4) * 16 + b1 / 16, (b1 % 16) * 4 + b2 / 64;
    assert c1 / 16 == b0 % 4 && c1 % 16 == b1 / 16;
    assert c2 / 4 == b1 % 16 && c2 % 4 == b2 / 64;
  }

  lemma TailRoundTrip(v: seq<byte>)
    requires 1 <= |v| <= 2
    ensures DecodeGroup(Tail(v)) == Some(v)
  {
    var g := Tail(v);
    if |v| == 1 {
      var c1 := (v[0] % 4) * 16;
      assert c1 / 16 == v[0] % 4;
      assert Index(g[2]) == None && Index(g[3]) == None;
      assert (v[0] / 4) * 4 + c1 / 16 == v[0];
      assert DecodeGroup(g) == Some([v[0]]);
      assert [v[0]] == v;
    } else {
      var c1, c2 := (v[0] % 4) * 16 + v[1] / 16, (v[1] % 16) * 4;
      assert c1 / 16 == v[0] % 4 && c1 % 16 == v[1] / 16;
      assert c2 / 4 == v[1] % 16;
      assert Index(g[3]) == None;
      assert (v[0] / 4) * 4 + c1 / 16 == v[0];
      assert (c1 % 16) * 16 + c2 / 4 == v[1];
      assert DecodeGroup(g) == Some([v[0], v[1]]);
      assert [v[0], v[1]] == v;
    }
  }

  /** Decoding undoes encoding. */
  lemma {:induction false} DecodeEncode(v: seq<byte>)
    ensures Decode(Encode(v)) == Some(v)
  {
    if v == [] {
    } else if |v| <= 2 {
      var s := Encode(v);
      assert s[..4] == s && s[4..] == [];
      TailRoundTrip(v);
      assert v + [] == v;
    } else {
      var s := Encode(v);
      assert s[..4] == Quantum(v[0], v[1], v[2]);
      assert s[4..] == Encode(v[3..]);
      QuantumRoundTrip(v[0], v[1], v[2]);
      DecodeEncode(v[3..]);
      assert [v[0], v[1], v[2]] + v[3..] == v;
    }
  }

  /** The MIME form: `s` cut into lines of `width` characters joined by CRLF,
      with no line break after the last line. */
  function Wrap(s: string, width: nat): (r: string)
    requires width > 0
    decreases |s|
  {
    if |s| <= width then s else s[..width] + "\r\n" + Wrap(s[width..], width)
  }

  /** Rust's `str::replace("\r\n", "")`: a left-to-right scan that deletes every
      non-overlapping CRLF. */
  function StripCrlf(s: string): (r: string)
    ensures |r| <= |s|
    ensures NoLineBreaks(s) ==> r == s
  {
    if |s| >= 2 && s[0] == '\r' && s[1] == '\n' then StripCrlf(s[2..])
    else if s == [] then []
    else
      assert NoLineBreaks(s) ==> NoLineBreaks(s[1..]) by {
        if NoLineBreaks(s) {
          forall i | 0 <= i < |s[1..]| ensures s[1..][i] != '\r' && s[1..][i] != '\n' {
            assert s[1..][i] == s[i + 1];
          }
        }
      }
      [s[0]] + StripCrlf(s[1..])
  }

  /** A string with no line-break characters. */
  predicate NoLineBreaks(s: string)
  {
    forall i :: 0 <= i < |s| ==> s[i] != '\r' && s[i] != '\n'
  }

  lemma NoLineBreaksAppend(a: string, b: string)
    requires NoLineBreaks(a) && NoLineBreaks(b)
    ensures NoLineBreaks(a + b)
  {
    forall i | 0 <= i < |a + b| ensures (a + b)[i] != '\r' && (a + b)[i] != '\n' {
      if i >= |a| {
        assert (a + b)[i] == b[i - |a|];
      }
    }
  }

  /** Stripping leaves a text without CR alone and continues after it. */
  lemma {:induction false} StripCrlfAppend(a: string, b: string)
    requires NoLineBreaks(a)
    ensures StripCrlf(a + b) == a + StripCrlf(b)
  {
    if a != [] {
      assert (a + b)[0] == a[0] && a[0] != '\r';
      assert NoLineBreaks(a[1..]) by {
        forall i | 0 <= i < |a[1..]| ensures a[1..][i] != '\r' && a[1..][i] != '\n' {
          assert a[1..][i] == a[i + 1];
        }
      }
      assert (a + b)[1..] == a[1..] + b;
      var s := a + b;
      assert StripCrlf(s) == [s[0]] + StripCrlf(s[1..]);
      assert s[1..] == a[1..] + b;
      StripCrlfAppend(a[1..], b);
      assert [a[0]] + (a[1..] + StripCrlf(b)) == a + StripCrlf(b);
    } else {
      assert a + b == b;
    }
  }

  /** Removing the CRLFs from the MIME form gives back the unwrapped text, for
      any text that had no line breaks of its own (such as a Base64 encoding). */
  lemma {:induction false} StripCrlfWrap(s: string, width: nat)
    requires width > 0
    requires NoLineBreaks(s)
    ensures StripCrlf(Wrap(s, width)) == s
    decreases |s|
  {
    if |s| <= width {
      StripCrlfAppend(s, []);
      assert s + [] == s;
    } else {
      var rest := Wrap(s[width..], width);
      assert s[..width] + "\r\n" + rest == s[..width] + ("\r\n" + rest);
      StripCrlfAppend(s[..width], "\r\n" + rest);
      assert ("\r\n" + rest)[2..] == rest;
      StripCrlfWrap(s[width..], width);
      assert s[..width] + s[width..] == s;
    }
  }

  /** The encoding itself contains no line breaks, so it survives the strip. */
  lemma EncodeHasNoLineBreaks(v: seq<byte>)
    ensures NoLineBreaks(Encode(v))
  {
    var s := Encode(v);
    forall i | 0 <= i < |s|
      ensures s[i] != '\r' && s[i] != '\n'
    {
      assert IsEncodingChar(s[i]);
    }
  }

  /** `to_base64(MIME)`: the standard encoding cut into 76-character lines
      joined by CRLF. Taking the CRLFs out again leaves exactly the
      single-line standard encoding. */
  function Mime(v: seq<byte>): (s: string)
    ensures StripCrlf(s) == Encode(v)
    ensures |Encode(v)| <= |s|
  {
    EncodeHasNoLineBreaks(v);
    StripCrlfWrap(Encode(v), MimeLineLength);
    Wrap(Encode(v), MimeLineLength)
  }
}
