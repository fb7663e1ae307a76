/**
 * The Huffman codec: `_compress` packs a string's codes into bytes and
 * base64url text; `_decompress` expands the text back into bits and decodes
 * them greedily with the stored code table.
 *
 * No bit length is stored, so the zero bits that pad the code stream to a
 * byte boundary are decoded too: the decoded string is the original string
 * followed by whatever those pad bits decode to.
 */
module HuffmanCodec {
  import opened Wrappers
  import opened BitString
  import Base64Url
  import opened HuffmanTree

  /** The exception `_compress` raises: `int('', 2)` on an empty bit string. */
  datatype CodecError = ValueError

  /** `''.join(huffman_codes[char] for char in data)`. */
  function EncodeBits(data: string, codes: map<char, Bits>): Bits
    requires forall i | 0 <= i < |data| :: data[i] in codes
  {
    if |data| == 0 then [] else codes[data[0]] + EncodeBits(data[1..], codes)
  }

  /** With non-empty codes the bit string is at least one bit per character. */
  lemma {:induction false} EncodeBitsLength(data: string, codes: map<char, Bits>)
    requires forall i | 0 <= i < |data| :: data[i] in codes
    requires forall c | c in codes :: |codes[c]| > 0
    ensures |EncodeBits(data, codes)| >= |data|
  {
    if |data| > 0 {
      EncodeBitsLength(data[1..], codes);
    }
  }

  /** `(8 - n % 8) % 8`: the zero bits that complete the last byte. */
  function PaddingLength(n: nat): (r: nat)
    ensures r < 8
    ensures (n + r) % 8 == 0
    ensures n == 0 ==> r == 0
  {
    (8 - n % 8) % 8
  }

  /**
   * The rest of `_compress` once the table is built: concatenate the codes, pad with
   * zeros to a byte boundary, cut into big-endian bytes, base64url-encode.
   * An empty bit string makes `int('', 2)` raise.
   */
  function Pack(data: string, codes: map<char, Bits>): (r: Result<string, CodecError>)
    requires forall i | 0 <= i < |data| :: data[i] in codes
    ensures r.Failure? <==> |EncodeBits(data, codes)| == 0
  {
    var compressed := EncodeBits(data, codes);
    var padded := compressed + Zeros(PaddingLength(|compressed|));
    if |padded| == 0 then Failure(ValueError)
    else Success(Base64Url.Encode(ToBytes(padded)))
  }

  /**
   * `bin(int.from_bytes(b, 'big'))[2:].zfill(8 * len(b))`: eight bits per
   * byte; for no bytes at all `bin(0)` still yields the single bit '0'.
   */
  function ExpandBits(bytes: seq<byte>): (r: Bits)
    ensures |bytes| == 0 ==> r == [false]
    ensures |bytes| > 0 ==> |r| == 8 * |bytes|
  {
    if |bytes| == 0 then [false] else FromBytes(bytes)
  }

  /** For non-empty input, the bits are `int.from_bytes(b, 'big')` written out in `8 * len(b)` bits. */
  lemma ExpandBitsValue(bytes: seq<byte>)
    requires |bytes| > 0
    ensures ExpandBits(bytes) == NatToBits(BytesToNat(bytes), 8 * |bytes|)
  {
    BitsToNatOfFromBytes(bytes);
    NatToBitsOfBitsToNat(FromBytes(bytes));
  }

  /** A set of characters has a least element. */
  lemma {:induction false} LeastExists(s: set<char>)
    requires s != {}
    ensures exists m :: m in s && forall d | d in s :: m <= d
    decreases |s|
  {
    var x :| x in s;
    if s - {x} != {} {
      LeastExists(s - {x});
      var m :| m in s - {x} && forall d | d in s - {x} :: m <= d;
      var least := if x < m then x else m;
      forall d | d in s
        ensures least <= d
      {
        if d != x {
          assert d in s - {x};
        }
      }
      assert least in s;
    } else {
      forall d | d in s
        ensures x <= d
      {
        assert d !in s - {x};
      }
    }
  }

  lemma LeastKeyExists(codes: map<char, Bits>, w: Bits)
    requires w in codes.Values
    ensures exists c :: c in codes && codes[c] == w && forall d | d in codes && codes[d] == w :: c <= d
  {
    var d0 :| d0 in codes && codes[d0] == w;
    var s := set d | d in codes && codes[d] == w;
    assert d0 in s;
    LeastExists(s);
    var m :| m in s && forall d | d in s :: m <= d;
    forall d | d in codes && codes[d] == w
      ensures m <= d
    {
      assert d in s;
    }
  }

  /** The character whose code is `w`; should several share it, the least one. */
  function KeyOf(codes: map<char, Bits>, w: Bits): (c: char)
    requires w in codes.Values
    ensures c in codes && codes[c] == w
  {
    LeastKeyExists(codes, w);
    var c :| c in codes && codes[c] == w && forall d | d in codes && codes[d] == w :: c <= d;
    c
  }

  /** `{code: char for char, code in huffman_codes.items()}`. */
  function Reverse(codes: map<char, Bits>): (rev: map<Bits, char>)
    ensures forall w :: w in rev <==> w in codes.Values
    ensures forall w | w in rev :: rev[w] in codes && codes[rev[w]] == w
  {
    map w | w in codes.Values :: KeyOf(codes, w)
  }

  /**
   * The decoding loop: append each bit to the buffer and, whenever the buffer
   * is a known code, emit its character and empty the buffer. Bits left in
   * the buffer at the end are dropped.
   */
  function Greedy(bits: Bits, rev: map<Bits, char>, buf: Bits): string
    decreases |bits|
  {
    if |bits| == 0 then []
    else
      var cur := buf + [bits[0]];
      if cur in rev then [rev[cur]] + Greedy(bits[1..], rev, [])
      else Greedy(bits[1..], rev, cur)
  }

  /** `_decompress` as a value: `None` when the text is not base64url. */
  function Decompressed(text: string, codes: map<char, Bits>): (r: Option<string>)
    ensures r.None? <==> Base64Url.Decode(text).None?
  {
    match Base64Url.Decode(text)
    case None => None
    case Some(bytes) => Some(Greedy(ExpandBits(bytes), Reverse(codes), []))
  }

  /** `_compress`: build the table for `data` and pack `data` with it. */
  method Compress(data: string) returns (r: Result<(string, map<char, Bits>), CodecError>)
    ensures r.Failure? <==> |data| == 0
    ensures r.Success? ==> IsCodeTableFor(data, r.value.1)
    ensures r.Success? ==> Pack(data, r.value.1) == Success(r.value.0)
    ensures r.Success? && (forall i | 0 <= i < |data| :: data[i] == data[0]) ==> r.value.1 == map[data[0] := [false]]
  {
    var codes := BuildCodes(data);
    EncodeBitsLength(data, codes);
    match Pack(data, codes)
    case Failure(e) => r := Failure(e);
    case Success(text) => r := Success((text, codes));
  }

  /** `_decompress`: the bit-by-bit loop over the expanded text. */
  method Decompress(text: string, codes: map<char, Bits>) returns (r: Option<string>)
    ensures r == Decompressed(text, codes)
  {
    var rev := Reverse(codes);
    var bytes := Base64Url.Decode(text);
    if bytes.None? {
      return None;
    }
    var binary := ExpandBits(bytes.value);
    var result: string := [];
    var current: Bits := [];
    assert binary[0..] == binary;
    for i := 0 to |binary|
      invariant result + Greedy(binary[i..], rev, current) == Greedy(binary, rev, [])
    {
      assert binary[i..][1..] == binary[i + 1..];
      current := current + [binary[i]];
      if current in rev {
        result := result + [rev[current]];
        current := [];
      }
    }
    assert binary[|binary|..] == [];
    assert result + [] == result;
    assert Greedy(binary, rev, []) == result;
    return Some(result);
  }

  // ---------------------------------------------------------------------------
  // Decoding laws
  // ---------------------------------------------------------------------------

  /** Codes are non-empty and no code is a prefix of another. */
  ghost predicate Decodable(codes: map<char, Bits>) {
    (forall c | c in codes :: |codes[c]| > 0) && PrefixFree(codes)
  }

  /** `rev` is a reverse table of `codes`: its keys are the codes, each mapped to a character that has it. */
  ghost predicate Inverts(rev: map<Bits, char>, codes: map<char, Bits>) {
    && (forall w :: w in rev <==> w in codes.Values)
    && (forall w | w in rev :: rev[w] in codes && codes[rev[w]] == w)
  }

  /**
   * Reading the rest of a code from part-way through it: no shorter buffer
   * is a code, so exactly one character is emitted, at the code's last bit.
   */
  lemma {:induction false} GreedyThroughCode(codes: map<char, Bits>, rev: map<Bits, char>, c: char, k: nat, rest: Bits)
    requires Decodable(codes) && Inverts(rev, codes) && c in codes && k < |codes[c]|
    ensures Greedy(codes[c][k..] + rest, rev, codes[c][..k]) == [c] + Greedy(rest, rev, [])
    decreases |codes[c]| - k
  {
    var w := codes[c];
    var bits := w[k..] + rest;
    assert bits[0] == w[k];
    var cur := w[..k] + [w[k]];
    assert cur == w[..k + 1];
    if k + 1 == |w| {
      assert cur == w;
      assert bits[1..] == rest;
      var d := rev[w];
      assert IsPrefix(codes[d], codes[c]);
    } else {
      forall d | d in codes
        ensures codes[d] != cur
      {
        if d != c {
          assert !IsPrefix(codes[d], codes[c]);
        }
      }
      assert cur !in rev;
      assert bits[1..] == w[k + 1..] + rest;
      GreedyThroughCode(codes, rev, c, k + 1, rest);
    }
  }

  /** With a prefix-free table, the greedy loop decodes an encoded string back, then goes on with what follows. */
  lemma {:induction false} GreedyEncodeBits(data: string, codes: map<char, Bits>, rev: map<Bits, char>, rest: Bits)
    requires Decodable(codes) && Inverts(rev, codes)
    requires forall i | 0 <= i < |data| :: data[i] in codes
    ensures Greedy(EncodeBits(data, codes) + rest, rev, []) == data + Greedy(rest, rev, [])
  {
    if |data| > 0 {
      var w := codes[data[0]];
      var tail := EncodeBits(data[1..], codes) + rest;
      assert EncodeBits(data, codes) == w + EncodeBits(data[1..], codes);
      assert EncodeBits(data, codes) + rest == w[0..] + tail;
      assert w[..0] == [];
      GreedyThroughCode(codes, rev, data[0], 0, tail);
      assert Greedy(EncodeBits(data, codes) + rest, rev, []) == [data[0]] + Greedy(tail, rev, []);
      GreedyEncodeBits(data[1..], codes, rev, rest);
      var g := Greedy(rest, rev, []);
      assert Greedy(tail, rev, []) == data[1..] + g;
      assert [data[0]] + (data[1..] + g) == ([data[0]] + data[1..]) + g;
      assert data == [data[0]] + data[1..];
    } else {
      assert EncodeBits(data, codes) + rest == rest;
      assert data + Greedy(rest, rev, []) == Greedy(rest, rev, []);
    }
  }

  /** The loop emits at most one character per bit. */
  lemma {:induction false} GreedyLength(bits: Bits, rev: map<Bits, char>, buf: Bits)
    ensures |Greedy(bits, rev, buf)| <= |bits|
    decreases |bits|
  {
    if |bits| > 0 {
      GreedyLength(bits[1..], rev, []);
      GreedyLength(bits[1..], rev, buf + [bits[0]]);
    }
  }

  /**
   * The codec's round-trip law. Packing non-empty `data` succeeds, and
   * decompressing the text with the same table gives `data` followed by what
   * the fewer than eight zero pad bits decode to (at most seven characters).
   */
  lemma DecompressPack(data: string, codes: map<char, Bits>)
    requires |data| > 0 && IsCodeTableFor(data, codes)
    ensures Pack(data, codes).Success?
    ensures var pad := PaddingLength(|EncodeBits(data, codes)|);
            Decompressed(Pack(data, codes).value, codes)
              == Some(data + Greedy(Zeros(pad), Reverse(codes), []))
    ensures |Decompressed(Pack(data, codes).value, codes).value| < |data| + 8
  {
    var bits := EncodeBits(data, codes);
    EncodeBitsLength(data, codes);
    var pad := Zeros(PaddingLength(|bits|));
    var padded := bits + pad;
    var bytes := ToBytes(padded);
    Base64Url.DecodeEncode(bytes);
    FromBytesToBytes(padded);
    assert ExpandBits(bytes) == padded;
    GreedyEncodeBits(data, codes, Reverse(codes), pad);
    GreedyLength(pad, Reverse(codes), []);
  }

  /** Decoded output always starts with the original string. */
  lemma DecompressPackPrefix(data: string, codes: map<char, Bits>)
    requires |data| > 0 && IsCodeTableFor(data, codes)
    ensures Pack(data, codes).Success?
    ensures Decompressed(Pack(data, codes).value, codes).Some?
    ensures var out := Decompressed(Pack(data, codes).value, codes).value;
            |data| <= |out| && out[..|data|] == data
  {
    DecompressPack(data, codes);
  }

  /** `n` copies of `c`. */
  function Repeat(c: char, n: nat): (r: string)
    ensures |r| == n && forall i | 0 <= i < n :: r[i] == c
  {
    if n == 0 then [] else [c] + Repeat(c, n - 1)
  }

  /** When "0" is a code, every zero bit decodes to its character. */
  lemma {:induction false} GreedyZeros(n: nat, rev: map<Bits, char>, c: char)
    requires [false] in rev && rev[[false]] == c
    ensures Greedy(Zeros(n), rev, []) == Repeat(c, n)
  {
    if n > 0 {
      assert Zeros(n)[1..] == Zeros(n - 1);
      assert [] + [Zeros(n)[0]] == [false];
      GreedyZeros(n - 1, rev, c);
    }
  }

  /** A run of one character, under the table {c: "0"}, is that many zero bits. */
  lemma {:induction false} EncodeBitsRepeat(c: char, n: nat)
    ensures EncodeBits(Repeat(c, n), map[c := [false]]) == Zeros(n)
  {
    if n > 0 {
      assert Repeat(c, n)[1..] == Repeat(c, n - 1);
      EncodeBitsRepeat(c, n - 1);
    }
  }

  /** {c: "0"} is a prefix-free table for a run of c. */
  lemma RepeatedCharacterTable(c: char, n: nat)
    requires n > 0
    ensures IsCodeTableFor(Repeat(c, n), map[c := [false]])
  {
    assert Repeat(c, n)[0] == c;
    assert forall x :: x in map[c := [false]] <==> x in Repeat(c, n);
  }

  /** The one-entry table {c: "0"} reverses to {"0": c}. */
  lemma ZeroCodeReversed(c: char)
    ensures Reverse(map[c := [false]]) == map[[false] := c]
  {
    var codes := map[c := [false]];
    assert codes.Values == {[false]} by {
      assert codes[c] == [false];
    }
  }

  /**
   * The round trip is not exact: a run of n copies of one character gets the
   * table {c: "0"}, and every pad bit decodes to one more copy, so the text
   * comes back as n + PaddingLength(n) copies.
   */
  lemma RepeatedCharacterRoundTrip(c: char, n: nat)
    requires n > 0
    ensures IsCodeTableFor(Repeat(c, n), map[c := [false]])
    ensures Pack(Repeat(c, n), map[c := [false]]).Success?
    ensures Decompressed(Pack(Repeat(c, n), map[c := [false]]).value, map[c := [false]])
              == Some(Repeat(c, n) + Repeat(c, PaddingLength(n)))
  {
    var data, codes := Repeat(c, n), map[c := [false]];
    RepeatedCharacterTable(c, n);
    EncodeBitsRepeat(c, n);
    ZeroCodeReversed(c);
    ZeroCodeRoundTrip(data, codes, c, n);
  }

  /**
   * When "0" is the only code and the data packs to n zero bits, each pad
   * bit comes back as one more copy of the code's character.
   */
  lemma ZeroCodeRoundTrip(data: string, codes: map<char, Bits>, c: char, n: nat)
    requires |data| > 0 && IsCodeTableFor(data, codes) && Reverse(codes) == map[[false] := c]
    requires EncodeBits(data, codes) == Zeros(n)
    ensures Pack(data, codes).Success?
    ensures Decompressed(Pack(data, codes).value, codes) == Some(data + Repeat(c, PaddingLength(n)))
  {
    DecompressPack(data, codes);
    GreedyZeros(PaddingLength(n), Reverse(codes), c);
  }

  /** Two runs of one character make one run. */
  lemma RepeatAppend(c: char, n: nat, m: nat)
    ensures Repeat(c, n) + Repeat(c, m) == Repeat(c, n + m)
  {
    assert forall i | 0 <= i < n + m :: (Repeat(c, n) + Repeat(c, m))[i] == c;
  }

  /**
   * The smallest example: "a" gets the table {'a': "0"} and packs to eight
   * zero bits, the text "AA==" ...
   */
  lemma PackSingleCharacter()
    ensures Pack("a", map['a' := [false]]) == Success("AA==")
  {
    var codes := map['a' := [false]];
    assert EncodeBits("a", codes) == [false];
    var padded := [false] + Zeros(7);
    assert padded == Zeros(8);
    BitsToNatZeros(8);
    assert padded[..8] == padded && padded[8..] == [];
    assert ToBytes(padded) == [0];
    assert Base64Url.CharOf(0) == 'A';
  }

  /** {'a': "0"} is a code table for "a": the case n = 1 of the table above. */
  lemma SingleCharacterTable()
    ensures IsCodeTableFor("a", map['a' := [false]])
  {
    RepeatedCharacterTable('a', 1);
  }

  /** ... and "AA==" decodes to "aaaaaaaa": the case n = 1 of the round trip above. */
  lemma DecompressSingleCharacter()
    ensures Decompressed("AA==", map['a' := [false]]) == Some("aaaaaaaa")
  {
    PackSingleCharacter();
    RepeatedCharacterRoundTrip('a', 1);
    SingleRun('a');
  }

  /** One copy of c, padded, comes back as eight copies. */
  lemma SingleRun(c: char)
    ensures Repeat(c, 1) == [c]
    ensures Repeat(c, 1) + Repeat(c, PaddingLength(1)) == [c, c, c, c, c, c, c, c]
  {
    assert PaddingLength(1) == 7;
    RepeatAppend(c, 1, 7);
  }
}
