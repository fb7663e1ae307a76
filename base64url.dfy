/**
 * The URL- and filename-safe base64 encoding of section 5 of RFC 4648
 * ("base64url"): the alphabet A-Z, a-z, 0-9, '-', '_' and '=' padding.
 * This is what `base64.urlsafe_b64encode` produces and what
 * `base64.urlsafe_b64decode` reads back.
 */
module Base64Url {
  import opened Wrappers
  import opened BitString

  /** The alphabet character for a 6-bit value. */
  function CharOf(v: nat): (c: char)
    requires v < 64
    ensures ValueOf(c) == Some(v)
    ensures c != '='
  {
    if v < 26 then ('A' as int + v) as char
    else if v < 52 then ('a' as int + (v - 26)) as char
    else if v < 62 then ('0' as int + (v - 52)) as char
    else if v == 62 then '-'
    else '_'
  }

  /** The 6-bit value of an alphabet character; `None` for any other character. */
  function ValueOf(c: char): (r: Option<nat>)
    ensures r.Some? ==> r.value < 64
    ensures r.Some? <==> ('A' <= c <= 'Z' || 'a' <= c <= 'z' || '0' <= c <= '9' || c == '-' || c == '_')
  {
    if 'A' <= c <= 'Z' then Some(c as int - 'A' as int)
    else if 'a' <= c <= 'z' then Some(c as int - 'a' as int + 26)
    else if '0' <= c <= '9' then Some(c as int - '0' as int + 52)
    else if c == '-' then Some(62)
    else if c == '_' then Some(63)
    else None
  }

  /** `base64.urlsafe_b64encode`: every 3 bytes become 4 characters; a short last group is padded with '='. */
  function Encode(b: seq<byte>): (s: string)
    ensures |s| == 4 * ((|b| + 2) / 3)
  {
    if |b| == 0 then ""
    else if |b| == 1 then
      [CharOf(b[0] / 4), CharOf((b[0] % 4) * 16), '=', '=']
    else if |b| == 2 then
      [CharOf(b[0] / 4), CharOf((b[0] % 4) * 16 + b[1] / 16), CharOf((b[1] % 16) * 4), '=']
    else
      [CharOf(b[0] / 4), CharOf((b[0] % 4) * 16 + b[1] / 16),
       CharOf((b[1] % 16) * 4 + b[2] / 64), CharOf(b[2] % 64)] + Encode(b[3..])
  }

  /** The three bytes carried by four 6-bit values. */
  function Group(a: nat, b: nat, c: nat, d: nat): (r: seq<byte>)
    requires a < 64 && b < 64 && c < 64 && d < 64
    ensures |r| == 3
  {
    [a * 4 + b / 16, (b % 16) * 16 + c / 4, (c % 4) * 64 + d]
  }

  /**
   * `base64.urlsafe_b64decode` on well-formed input: groups of four alphabet
   * characters, the last of which may end in "=" or "==". Anything else is a
   * decoding error (`None`).
   */
  function Decode(s: string): (r: Option<seq<byte>>)
    ensures r.Some? ==> |s| % 4 == 0 && |r.value| <= 3 * (|s| / 4) <= |r.value| + 2
    decreases |s|
  {
    if |s| == 0 then Some([])
    else if |s| < 4 then None
    else
      var v0, v1, v2, v3 := ValueOf(s[0]), ValueOf(s[1]), ValueOf(s[2]), ValueOf(s[3]);
      if v0.None? || v1.None? then None
      else if |s| == 4 && s[2] == '=' && s[3] == '=' then
        Some(Group(v0.value, v1.value, 0, 0)[..1])
      else if v2.None? then None
      else if |s| == 4 && s[3] == '=' then
        Some(Group(v0.value, v1.value, v2.value, 0)[..2])
      else if v3.None? then None
      else
        var rest := Decode(s[4..]);
        if rest.None? then None
        else Some(Group(v0.value, v1.value, v2.value, v3.value) + rest.value)
  }

  /** The arithmetic of one full group: the four 6-bit values carry the three bytes back. */
  lemma GroupOfBytes(x: byte, y: byte, z: byte)
    ensures Group(x / 4, (x % 4) * 16 + y / 16, (y % 16) * 4 + z / 64, z % 64) == [x, y, z]
  {
    assert ((x % 4) * 16 + y / 16) / 16 == x % 4;
    assert ((x % 4) * 16 + y / 16) % 16 == y / 16;
    assert ((y % 16) * 4 + z / 64) / 4 == y % 16;
    assert ((y % 16) * 4 + z / 64) % 4 == z / 64;
  }

  /** Four alphabet characters decode as one full group, then the rest is decoded. */
  lemma DecodeFullGroup(v0: nat, v1: nat, v2: nat, v3: nat, t: string)
    requires v0 < 64 && v1 < 64 && v2 < 64 && v3 < 64
    ensures Decode([CharOf(v0), CharOf(v1), CharOf(v2), CharOf(v3)] + t)
              == if Decode(t).None? then None else Some(Group(v0, v1, v2, v3) + Decode(t).value)
  {
    var s := [CharOf(v0), CharOf(v1), CharOf(v2), CharOf(v3)] + t;
    assert s[..4] == [CharOf(v0), CharOf(v1), CharOf(v2), CharOf(v3)];
    assert s[4..] == t;
  }

  /** The first four characters of an encoding of three or more bytes. */
  lemma EncodeFullGroup(b: seq<byte>)
    requires |b| >= 3
    ensures Encode(b) == [CharOf(b[0] / 4), CharOf((b[0] % 4) * 16 + b[1] / 16),
                          CharOf((b[1] % 16) * 4 + b[2] / 64), CharOf(b[2] % 64)] + Encode(b[3..])
  {
  }

  /** A single byte: two characters and "==". */
  lemma DecodeEncodeOne(x: byte)
    ensures Decode(Encode([x])) == Some([x])
  {
    var v0, v1 := x / 4, (x % 4) * 16;
    var s := [CharOf(v0), CharOf(v1), '=', '='];
    assert Encode([x]) == s;
    assert ValueOf(s[0]) == Some(v0) && ValueOf(s[1]) == Some(v1);
    assert Decode(s) == Some(Group(v0, v1, 0, 0)[..1]);
    assert v1 / 16 == x % 4;
    assert Group(v0, v1, 0, 0)[..1] == [x];
  }

  /** Two bytes: three characters and "=". */
  lemma DecodeEncodeTwo(x: byte, y: byte)
    ensures Decode(Encode([x, y])) == Some([x, y])
  {
    var v0, v1, v2 := x / 4, (x % 4) * 16 + y / 16, (y % 16) * 4;
    var s := [CharOf(v0), CharOf(v1), CharOf(v2), '='];
    assert Encode([x, y]) == s;
    assert ValueOf(s[0]) == Some(v0) && ValueOf(s[1]) == Some(v1) && ValueOf(s[2]) == Some(v2);
    assert Decode(s) == Some(Group(v0, v1, v2, 0)[..2]);
    assert v1 / 16 == x % 4 && v1 % 16 == y / 16;
    assert v2 / 4 == y % 16;
    assert Group(v0, v1, v2, 0)[..2] == [x, y];
  }

  /** A full group of three bytes followed by bytes that already decode back. */
  lemma DecodeEncodeGroup(x: byte, y: byte, z: byte, t: seq<byte>)
    requires Decode(Encode(t)) == Some(t)
    ensures Decode(Encode([x, y, z] + t)) == Some([x, y, z] + t)
  {
    var b := [x, y, z] + t;
    assert b[0] == x && b[1] == y && b[2] == z && b[3..] == t;
    EncodeFullGroup(b);
    DecodeFullGroup(x / 4, (x % 4) * 16 + y / 16, (y % 16) * 4 + z / 64, z % 64, Encode(t));
    GroupOfBytes(x, y, z);
  }

  /** Decoding undoes encoding: the encoding is injective and loses nothing. */
  lemma {:induction false} DecodeEncode(b: seq<byte>)
    ensures Decode(Encode(b)) == Some(b)
  {
    if |b| == 1 {
      DecodeEncodeOne(b[0]);
      assert b == [b[0]];
    } else if |b| == 2 {
      DecodeEncodeTwo(b[0], b[1]);
      assert b == [b[0], b[1]];
    } else if |b| >= 3 {
      DecodeEncode(b[3..]);
      DecodeEncodeGroup(b[0], b[1], b[2], b[3..]);
      assert b == [b[0], b[1], b[2]] + b[3..];
    }
  }
}
