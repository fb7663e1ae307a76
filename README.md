# Huffman-compressed URL shortener, modelled in Dafny

The shortener keeps three dictionaries in memory:
- `url_to_code` maps a long URL to its 12-character short code;
- `code_to_url` maps a short code back to its URL;
- `compressed_data` holds, for every stored URL, the short code compressed with a Huffman code.

A short code is built in two parts:
1. The first 8 characters come from the URL's SHA-256 digest: its first 8 bytes, base64url-encoded, with the `=` padding stripped.
2. Four random lowercase letters are appended.

The code is retried up to 10 times until it is unused. To compress it, the code is Huffman-coded into a bit string, which is then:
- padded with zeros to whole bytes;
- read as a big-endian integer;
- base64url-encoded.

Expanding decodes a compressed string back into a short code and looks that code up.

Two variants of the store exist, and both are modelled:
- `URL.py` keys `compressed_data` by short code. Its `expand_url` tries every stored Huffman table on the query. It accepts a table only when the decoded code maps to that record's own URL.
- `_URL.py` keys `compressed_data` by compressed string. Its `expand_url` looks the query up directly and trusts whatever short code it decodes.

The modules follow the program's structure:

- `BitString`: bit strings as `seq<bool>`, with `false` as the character `'0'`. Provides:
  - big-endian conversion between bits and naturals;
  - conversion between bits and bytes.
- `Base64Url`: base64url as in section 5 of RFC 4648. The encoder is exact. The decoder accepts well-formed input and is proved to invert the encoder.
- `HuffmanTree`: the Huffman construction of `_build_huffman_tree`, which covers:
  - the character `Counter` (its keys in first-occurrence order);
  - the heap of nodes, the merge loop and the code-assignment walk.
- `HuffmanCodec`: `_compress` and `_decompress`, with the greedy decoding loop.
- `ShortCode`: `_generate_short_code`.
- `Shortener`: the `URL.py` store, as the class `UrlShortener`.
- `KeyedShortener`: the `_URL.py` store, as the class `KeyedUrlShortener`.

What the model establishes about the code as written:

- Codes are prefix-free:
  - the tables that `_build_huffman_tree` returns for non-empty input are prefix-free;
  - they have one non-empty code per distinct character of the input.
- The round trip is only a prefix law. `_decompress(_compress(s))` always begins with `s`, and it has fewer than `len(s) + 8` characters. The zero padding added to reach whole bytes is decoded as well, whenever zeros spell a code.
  - For example, compressing `"a"` gives the table `{a: '0'}` and the text `"AA=="`, and decompressing that gives `"aaaaaaaa"` (`HuffmanCodec.PackSingleCharacter`, `HuffmanCodec.DecompressSingleCharacter`).
  - In both stores the extra characters matter. The decoded string must itself be a stored short code: in `URL.py` through the `in self.code_to_url` test (line 125), in `_URL.py` through `self.code_to_url.get` (line 126), and every short code has 12 characters. So a URL whose compressed code decodes to more than its short code is not found through its own record (`Shortener.UrlShortener.OwnTextAccepted`, `KeyedUrlShortener.OwnTextExpands`).
  - For example, the short code `"aaaaaaaaaaaa"` gets the table `{a: '0'}`. Its twelve bits are padded with four zeros, and its compressed code decodes to sixteen `a`s. In a new store given only that URL, expanding the URL's own compressed code returns `None` (`HuffmanCodec.RepeatedCharacterRoundTrip`, `Shortener.OwnTextNotAccepted`, `Shortener.OwnCodeNotFound`).
- Compressing an empty string fails: `int('', 2)` raises `ValueError`. Short codes are never empty, so the stores never hit this case.
- In `URL.py`, when a record's table decodes the query exactly to that record's short code, `expand_url` returns some URL.
  - It need not be that record's URL. Another record's table may also decode the query to that other record's own code, and then either URL may be returned.
- In `_URL.py`, calling `shorten_url` for a URL that is already stored always raises `KeyError`:
  - the records are keyed by compressed string, so the lookup by short code on line 96 normally fails;
  - a record found there has no `'compressed'` entry anyway (line 97).

  The model returns `Failure(KeyError)` for every repeated URL and leaves the store unchanged.
- In `_URL.py`, a new record replaces any earlier record stored under the same compressed string.
- In `_URL.py`, a successful `expand_url` returns the URL of the record stored under the query. Every short code has 12 characters, so a decoded string that is a stored code and begins with the record's own code is that code (`KeyedUrlShortener.ExpandOwnUrl`).
- In `_URL.py`, the re-generation loop on lines 101-102 never runs. `_generate_short_code` returns only codes absent from `code_to_url`, so the loop condition is false on entry, and `KeyedUrlShortener.ShortenUrl` proves this at that point.

A store is consistent (its `Valid` predicate) when:
- `url_to_code` and `code_to_url` are inverse to each other;
- every short code has 12 characters;
- every record holds a prefix-free table for its URL's short code, and the short code packed with that table gives the record's compressed string.

Effects are passed in as values:
- The SHA-256 hash is a function `sha256: string -> Digest`, held by each store.
- The random letters are a stream `draws: nat -> Suffix`. Attempt `k` of `_generate_short_code` uses `draws(k)`.

## Model

| member | source | states |
|---|---|---|
| BitString.BitsToNat | URL.py:73 | the big-endian value of a bit string is below 2 to the power of its length |
| BitString.NatToBitsOfBitsToNat | URL.py:73 | writing a bit string's value back at the same width gives the same bits |
| BitString.ToBytes | URL.py:73 | `int(bits, 2).to_bytes(len // 8, 'big')` yields one byte per eight bits |
| BitString.FromBytesToBytes | URL.py:84 | expanding the bytes of a whole-byte bit string gives back exactly those bits |
| BitString.Zeros | URL.py:70 | `'0' * n` is n zero bits |
| BitString.BitsToNatZeros | URL.py:84 | an all-zero bit string has value 0 |
| BitString.BitsToNatSnoc | URL.py:73 | appending a bit doubles the value and adds the bit |
| BitString.BitsToNatAppend | URL.py:73 | the value of two bit strings read one after the other is the first's value shifted past the second, plus the second's |
| BitString.BitsToNatOfNatToBits | URL.py:73 | a number below 2 to the power of the width is written out in that many bits and read back unchanged |
| BitString.BitsToNatOfFromBytes | URL.py:84 | expanding bytes into eight bits each keeps their big-endian value `int.from_bytes(b, 'big')` |
| BitString.ToBytesValue | URL.py:73 | the bytes packed from a bit string have the bit string's value `int(s, 2)` when read big-endian |
| Base64Url.CharOf | URL.py:74 | every 6-bit value has an alphabet character other than '=' that decodes back to it |
| Base64Url.ValueOf | URL.py:83 | exactly the 64 characters A-Z, a-z, 0-9, '-', '_' have a value, and it is below 64 |
| Base64Url.Decode | URL.py:83 | `base64.urlsafe_b64decode` accepts only text whose length is a multiple of 4, and yields three bytes per group of four characters, less at most two for '=' padding |
| Base64Url.Encode | URL.py:74 | n bytes encode as 4 * ceil(n / 3) characters |
| Base64Url.GroupOfBytes | URL.py:83 | decoding the four characters of one encoded group gives back its three bytes |
| Base64Url.DecodeEncode | URL.py:83 | decoding the encoding of any byte string gives back that byte string |
| HuffmanTree.Count | URL.py:31 | a character's count is positive exactly when the character occurs |
| HuffmanTree.Distinct | URL.py:31 | the Counter's keys are exactly the characters of the data, each once |
| HuffmanTree.DistinctOfRepeated | URL.py:33-34 | data made of one repeated character has exactly one distinct key |
| HuffmanTree.CountSumDistinct | URL.py:31 | the Counter's counts add up to the length of the data |
| HuffmanTree.ForestRemoveLeaves | URL.py:41-42 | popping the node at any position removes exactly that node's leaves from the heap's leaves |
| HuffmanTree.ForestRemoveFreq | URL.py:41-42 | popping the node at any position removes exactly that node's frequency from the heap's total |
| HuffmanTree.LeafRow | URL.py:36-38 | the row of pushed leaves holds, at each position, the leaf of that key carrying the key's count in the data |
| HuffmanTree.LeafRowForest | URL.py:36-38 | the row's leaves are exactly the keys, and its total frequency is the sum of their counts |
| HuffmanTree.PushLeaves | URL.py:36-38 | the initial heap is one leaf per distinct character, in first-occurrence order, each carrying its count: its leaves are the distinct characters and its total frequency is the data's length |
| HuffmanTree.PopMin | URL.py:41-42 | `heappop` removes a node of least frequency, taken from the heap; the rest are the heap's other nodes, keeping every other leaf and all other frequency |
| HuffmanTree.MergeWeighted | URL.py:41-44 | a merged node whose frequency is the sum of its children's keeps every node of the heap weighted: leaves carry their counts, internal nodes their children's sum |
| HuffmanTree.MergeNodes | URL.py:40-46 | the merge loop leaves one node (none for an empty heap), keeping every leaf and the total frequency; from two or more nodes the root is internal; nodes that start weighted stay weighted |
| HuffmanTree.BuildHeap | URL.py:36-46 | the final tree's leaves are exactly the data's characters, each once, and its frequency is the data's length; every leaf carries its character's count and every internal node the sum of its children's frequencies |
| HuffmanTree.Paths | URL.py:50-57 | the table `generate_codes` writes: each leaf's character mapped to its path from the root, '0' for left and '1' for right, starting from the given code |
| HuffmanTree.PathsKeys | URL.py:50-57 | the walk assigns a code to exactly the leaf characters of the tree |
| HuffmanTree.PathsExtend | URL.py:50-57 | every code the walk assigns extends the starting code, and below an internal node it is strictly longer |
| HuffmanTree.PathsPrefixFree | URL.py:50-57 | when no character labels two leaves, no assigned code is a prefix of another |
| HuffmanTree.CrossNotPrefix | URL.py:55-57 | a code under `code + '0'` is never a prefix of one under `code + '1'` |
| HuffmanTree.GenerateCodes | URL.py:50-57 | the recursive walk adds the path of every leaf to the table it is given |
| HuffmanTree.BuildCodes | URL.py:30-61 | no codes for empty data; `{data[0]: '0'}` for one distinct character; otherwise a prefix-free table of non-empty codes for exactly the data's characters |
| HuffmanCodec.EncodeBits | URL.py:66 | the codes of the data's characters, concatenated in the order of the data |
| HuffmanCodec.EncodeBitsLength | URL.py:66 | when every code is non-empty, the encoded bit string has at least one bit per character of the data |
| HuffmanCodec.PaddingLength | URL.py:69 | the padding is under 8 bits, makes the length a multiple of 8, and is 0 for empty input |
| HuffmanCodec.Pack | URL.py:66-74 | compressing fails with `ValueError` exactly when the encoded bit string is empty |
| HuffmanCodec.ExpandBits | URL.py:84 | the bit string has 8 bits per byte, and is the single bit '0' for no bytes |
| HuffmanCodec.ExpandBitsValue | URL.py:84 | for non-empty input, the bits are `int.from_bytes(b, 'big')` written in exactly 8 bits per byte |
| HuffmanCodec.KeyOf | URL.py:80 | the character found for a code really has that code |
| HuffmanCodec.Reverse | URL.py:80 | the reverse table's keys are exactly the codes, each mapped to a character that has it |
| HuffmanCodec.Compress | URL.py:63-76 | fails exactly on empty data; otherwise returns a prefix-free table for the data and its packed text, the table being `{c: '0'}` when the data is one character c repeated |
| HuffmanCodec.Greedy | URL.py:87-93 | the bit loop: each bit is appended to the buffer; when the buffer is a code, its character is emitted and the buffer emptied; bits left in the buffer at the end are dropped |
| HuffmanCodec.Decompressed | URL.py:78-95 | `None` exactly when the text is not well-formed base64url; otherwise the greedy decoding of the expanded bits under the reversed table |
| HuffmanCodec.Decompress | URL.py:78-95 | the loop yields what the greedy decoding of the expanded bits gives, and `None` when the text is not base64url |
| HuffmanCodec.GreedyThroughCode | URL.py:89-93 | from part-way through a code, the loop emits exactly that code's character at its last bit |
| HuffmanCodec.GreedyEncodeBits | URL.py:89-93 | with a prefix-free table, decoding encoded data followed by any bits yields the data and then the decoding of those bits |
| HuffmanCodec.GreedyLength | URL.py:89-93 | the loop emits at most one character per bit |
| HuffmanCodec.DecompressPack | URL.py:63-95 | decompressing compressed data gives the data followed by the decoding of the zero padding, fewer than `len(data) + 8` characters |
| HuffmanCodec.DecompressPackPrefix | URL.py:63-95 | decompressing compressed data succeeds and begins with the data |
| HuffmanCodec.GreedyZeros | URL.py:89-93 | when '0' is a character's code, n zero bits decode to n copies of it |
| HuffmanCodec.PackSingleCharacter | URL.py:33-34 | "a" with the table `{a: '0'}` compresses to "AA==" |
| HuffmanCodec.SingleCharacterTable | URL.py:33-34 | `{a: '0'}` is a prefix-free table for "a" |
| HuffmanCodec.DecompressSingleCharacter | URL.py:78-95 | "AA==" with the table `{a: '0'}` decompresses to "aaaaaaaa", not "a" |
| HuffmanCodec.EncodeBitsRepeat | URL.py:66 | n copies of one character encode as n zero bits under the table `{c: '0'}` |
| HuffmanCodec.RepeatedCharacterTable | URL.py:33-34 | `{c: '0'}` is a prefix-free table for any run of c |
| HuffmanCodec.ZeroCodeReversed | URL.py:80 | the reverse mapping of the one-entry table `{c: '0'}` is `{'0': c}` |
| HuffmanCodec.RepeatedCharacterRoundTrip | URL.py:63-95 | n copies of one character compress with `{c: '0'}` and decompress to those n copies followed by one more copy per pad bit |
| HuffmanCodec.ZeroCodeRoundTrip | URL.py:63-95 | when '0' is the only code, the data comes back followed by one copy of its character per pad bit |
| ShortCode.RStripPad | URL.py:23 | stripping '=' leaves a prefix of the input that does not end in '=', and every character removed is '=' |
| ShortCode.EncodeEightBytes | URL.py:23 | eight digest bytes encode as eleven alphabet characters and one '=' |
| ShortCode.Prefix | URL.py:19-23 | the digest part of a code is 8 base64url alphabet characters |
| ShortCode.Candidate | URL.py:23-24 | each attempt's code is 12 characters: the digest prefix, then the attempt's 4 random letters |
| ShortCode.GenerateShortCode | URL.py:18-28 | returns the first of the 10 attempts whose code is unused; `ValueError` exactly when all 10 are taken |
| Shortener.CodesUnique | URL.py:108-109 | distinct stored URLs have distinct short codes |
| Shortener.InsertKeepsInverses | URL.py:108-109 | adding a new URL under an unused code keeps `url_to_code` and `code_to_url` inverse to each other |
| Shortener.InsertKeepsRecords | URL.py:112-117 | storing a record built from a code's compression keeps every record consistent with its code |
| Shortener.InsertKeepsStore | URL.py:107-117 | storing a new URL under a fresh 12-character code, with the record built for it, keeps the store consistent |
| Shortener.SingleRecordStore | URL.py:107-117 | a store holding one URL under a 12-character code and its record is consistent |
| Shortener.StoredRecordDecodes | URL.py:112-117 | a stored record's compressed string decodes to a string that begins with its short code and has fewer than 8 extra characters |
| Shortener.Accepts | URL.py:125 | the `if` test for one record: the query decodes under the record's table to a stored short code that maps to the record's URL |
| Shortener.OwnTextNotAccepted | URL.py:121-129 | in a consistent one-URL store whose short code is one character repeated twelve times (such as "aaaaaaaaaaaa"), the URL's own compressed code decodes to sixteen copies, and its record does not accept it |
| Shortener.UrlShortener.constructor | URL.py:12-16 | a new store is empty and consistent |
| Shortener.UrlShortener.ShortenUrl | URL.py:97-119 | a stored URL gets its code and compressed string back, with nothing changed; a new URL gets the first of the ten candidate codes that is unused, every earlier candidate being taken, recorded in both directions with the record `_compress` builds for the code, or `ValueError` with nothing changed |
| Shortener.UrlShortener.Store | URL.py:107-117 | a new URL and its fresh code are mapped to each other and the code's compression is stored under the code, with the store kept consistent and nothing else changed; a code of one repeated character gets the table `{c: '0'}` |
| Shortener.UrlShortener.ExpandUrl | URL.py:121-129 | returns a URL exactly when some record's table decodes the query to a code that maps to that record's URL; when a record's table decodes the query exactly to its own code, some URL is returned |
| Shortener.UrlShortener.OwnTextAccepted | URL.py:121-129 | in a consistent store, a record accepts its own compressed code exactly when that code decodes back to its short code with nothing extra |
| Shortener.OwnCodeNotFound | URL.py:97-129 | a new store, after recording a URL under a code of one character repeated twelve times, returns `None` when asked to expand that URL's own compressed code |
| Shortener.OnlyRecordRejects | URL.py:125 | the record written for a code of one character repeated twelve times rejects its own compressed code in a one-URL store |
| KeyedShortener.InsertKeepsKeyed | _URL.py:104-111 | writing a new URL's record under its compressed string keeps every stored record consistent with its URL's code, including a record it replaces |
| KeyedShortener.KeyedUrlShortener.constructor | _URL.py:13-17 | a new store is empty and consistent |
| KeyedShortener.KeyedUrlShortener.ShortenUrl | _URL.py:93-113 | a stored URL always fails with `KeyError`; a new URL gets the first of the ten candidate codes that is unused, every earlier candidate being taken, in both directions, and its record, holding the table the code was packed with, is stored under its compressed string, replacing any earlier one; failures change nothing |
| KeyedShortener.KeyedUrlShortener.Store | _URL.py:104-111 | a new URL and its fresh code are mapped to each other, and the record holding the code's table and the URL is stored under the code's packed text, replacing any record there; the store stays consistent |
| KeyedShortener.KeyedUrlShortener.ExpandUrl | _URL.py:115-126 | in a consistent store, any URL returned is a stored URL |
| KeyedShortener.KeyedUrlShortener.ExpandOwnUrl | _URL.py:115-126 | in a consistent store, where every short code has 12 characters, a successful expansion returns the URL of the record stored under the query |
| KeyedShortener.KeyedUrlShortener.ExpandExact | _URL.py:115-126 | a compressed string that decodes exactly to its URL's code expands to that URL |
| KeyedShortener.KeyedUrlShortener.ExpandDecodesPrefix | _URL.py:115-126 | a successful expansion decoded a string that begins with the stored record's code, and returns what `code_to_url` holds for it |
| KeyedShortener.KeyedUrlShortener.OwnTextExpands | _URL.py:115-126 | in a consistent store, a stored compressed string expands exactly when it decodes back to its URL's short code with nothing extra |

## Left out

- SHA-256 and `hashlib` are not modelled. Each store holds the hash as a function from URL to a 32-byte digest.
- `random.choices` and `random.choice` are not modelled. The four letters of attempt `k` are `draws(k)`, from a stream passed in by the caller.
- HuffmanTree.PopMin: `heapq`'s array layout and its order among nodes of equal frequency are not modelled. Pop returns some node of least frequency, so the exact code table depends on a choice the model leaves open. Every property above holds for every such choice.
- HuffmanTree.MergeNodes: `__lt__` compares only frequencies, so Python may compare a new internal node with a leaf. The model uses the same comparison but does not model heap positions.
- Base64Url.Decode: only well-formed input is accepted: groups of four base64url characters, with at most two trailing '='. `urlsafe_b64decode` is more lenient, so some compressed codes that `URL.py` expands expand to `None` here. For example, `"A A=="` can succeed in Python but fails here.
  - Python discards characters outside the alphabet.
  - Python accepts '+' and '/' as well as '-' and '_'.
  - Python ignores data after the padding.
  - Both reject input whose padding is missing.
  - Both ignore non-zero leftover bits in the last group: `"QR=="` decodes to the single byte 65.
  - Any input Python rejects is rejected here as well.
- HuffmanCodec.Reverse: when two characters share a code, Python keeps the last one inserted and the model keeps the least one. The tables that `_build_huffman_tree` produces never share codes.
- Shortener.UrlShortener.ExpandUrl: records are tried in whatever order the loop picks. Python follows insertion order, so when two records both accept a query, the model may return the other record's URL.
- Exceptions other than those the core raises on purpose are not modelled as separate types. The error paths are `ValueError` (generator and compression) and `KeyError` (the `_URL.py` repeat lookup); decoding errors in `expand_url` become `None`.
- KeyedShortener.KeyedUrlShortener.ShortenUrl: the re-generation loop on _URL.py lines 101-102 (hashing `long_url` plus one random letter) is replaced by a proved assertion that its condition is false on entry. The salted re-hash therefore never runs in the model.
- The `__main__` demonstration and its printing are not modelled. The unused imports (`collections`, `json`) have no part in the model.
- `HuffmanNode` is modelled as the datatype `HuffmanTree.Node`, with a leaf or internal constructor instead of a character field that may be empty. Leaves carry the characters of a string and are never empty, so the `if node.char` test on line 51 is the leaf test.
