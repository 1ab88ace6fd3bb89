/** Lower-case hexadecimal encoding of a byte vector, two digits per byte,
    most significant nibble first (what `ToHex::to_hex` produces). */
module Hex {
  import opened Wrappers

  /** The lower-case digit for a nibble. */
  function Digit(n: int): (c: char)
    requires 0 <= n < 16
    ensures DigitValue(c) == Some(n)
  {
    if n < 10 then ('0' as int + n) as char else ('a' as int + n - 10) as char
  }

  /** The nibble a lower-case hex digit stands for; `None` for any other char. */
  function DigitValue(c: char): Option<int>
  {
    if '0' <= c <= '9' then Some(c as int - '0' as int)
    else if 'a' <= c <= 'f' then Some(c as int - 'a' as int + 10)
    else None
  }

  /** The hex encoding of `v`: the digits of byte `i` sit at `2*i` and `2*i + 1`. */
  function Encode(v: seq<byte>): (s: string)
    ensures |s| == 2 * |v|
    ensures forall i :: 0 <= i < |v| ==> s[2 * i] == Digit(v[i] / 16) && s[2 * i + 1] == Digit(v[i] % 16)
  {
    if v == [] then [] else [Digit(v[0] / 16), Digit(v[0] % 16)] + Encode(v[1..])
  }

  /** Inverse of `Encode`: reads pairs of lower-case digits back into bytes. */
  function Decode(s: string): (r: Option<seq<byte>>)
    ensures r.Some? ==> 2 * |r.value| == |s|
  {
    if s == [] then Some([])
    else if |s| == 1 then None
    else match (DigitValue(s[0]), DigitValue(s[1]), Decode(s[2..]))
      case (Some(hi), Some(lo), Some(rest)) => Some([16 * hi + lo] + rest)
      case _ => None
  }

  /** Decoding undoes encoding, so `Encode` loses no information. */
  lemma {:induction false} DecodeEncode(v: seq<byte>)
    ensures Decode(Encode(v)) == Some(v)
  {
    if v != [] {
      var s := Encode(v);
      assert s[2..] == Encode(v[1..]);
      DecodeEncode(v[1..]);
      assert 16 * (v[0] / 16) + v[0] % 16 == v[0];
      assert [v[0]] + v[1..] == v;
    }
  }

  /** Two byte vectors with the same hex encoding are equal. */
  lemma EncodeInjective(v: seq<byte>, w: seq<byte>)
    requires Encode(v) == Encode(w)
    ensures v == w
  {
    DecodeEncode(v);
    DecodeEncode(w);
  }

  /** Hex encoding works byte by byte: the encoding of a prefix is the prefix of
      the encoding, so an anchored match on `Encode(v)` against the encoding of a
      byte signature is exactly a prefix test on `v` itself. */
  lemma StartsWithEncode(v: seq<byte>, sig: seq<byte>)
    ensures StartsWith(Encode(v), Encode(sig)) <==> StartsWith(v, sig)
  {
    var s, t := Encode(v), Encode(sig);
    if StartsWith(v, sig) {
      forall k | 0 <= k < |t|
        ensures s[k] == t[k]
      {
        var i := k / 2;
        assert k == 2 * i || k == 2 * i + 1;
        assert v[i] == sig[i];
      }
    }
    if StartsWith(s, t) {
      forall i | 0 <= i < |sig|
        ensures v[i] == sig[i]
      {
        assert s[2 * i] == t[2 * i] && s[2 * i + 1] == t[2 * i + 1];
        assert DigitValue(Digit(v[i] / 16)) == DigitValue(Digit(sig[i] / 16));
        assert DigitValue(Digit(v[i] % 16)) == DigitValue(Digit(sig[i] % 16));
        assert v[i] == 16 * (v[i] / 16) + v[i] % 16;
        assert sig[i] == 16 * (sig[i] / 16) + sig[i] % 16;
      }
    }
  }
}
