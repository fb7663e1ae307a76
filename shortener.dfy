/**
 * The URL store of URL.py: `url_to_code`, `code_to_url` and
 * `compressed_data` keyed by short code, with `expand_url` trying every
 * stored code table on the query and accepting a decode only when it maps
 * back to that record's own URL.
 */
module Shortener {
  import opened Wrappers
  import opened BitString
  import opened HuffmanTree
  import opened HuffmanCodec
  import opened ShortCode

  /** `url_to_code` and `code_to_url` are inverse to each other. */
  ghost predicate MutualInverses(urlToCode: map<string, string>, codeToUrl: map<string, string>) {
    && (forall u | u in urlToCode :: urlToCode[u] in codeToUrl && codeToUrl[urlToCode[u]] == u)
    && (forall c | c in codeToUrl :: codeToUrl[c] in urlToCode && urlToCode[codeToUrl[c]] == c)
  }

  /** Distinct stored URLs have distinct short codes. */
  lemma CodesUnique(urlToCode: map<string, string>, codeToUrl: map<string, string>, u: string, v: string)
    requires MutualInverses(urlToCode, codeToUrl)
    requires u in urlToCode && v in urlToCode && u != v
    ensures urlToCode[u] != urlToCode[v]
  {
    assert codeToUrl[urlToCode[u]] == u && codeToUrl[urlToCode[v]] == v;
  }

  /** Adding a new URL with a fresh code keeps the two maps inverse to each other. */
  lemma InsertKeepsInverses(urlToCode: map<string, string>, codeToUrl: map<string, string>, url: string, code: string)
    requires MutualInverses(urlToCode, codeToUrl)
    requires url !in urlToCode && code !in codeToUrl
    ensures MutualInverses(urlToCode[url := code], codeToUrl[code := url])
  {
    var u2c, c2u := urlToCode[url := code], codeToUrl[code := url];
    forall u | u in u2c
      ensures u2c[u] in c2u && c2u[u2c[u]] == u
    {
      if u != url {
        assert urlToCode[u] != code;
      }
    }
    forall c | c in c2u
      ensures c2u[c] in u2c && u2c[c2u[c]] == c
    {
      if c != code {
        assert codeToUrl[c] != url;
      }
    }
  }

  /** Every stored short code has the 12 characters `_generate_short_code` gives it. */
  ghost predicate TwelveCharacterCodes(codeToUrl: map<string, string>) {
    forall code | code in codeToUrl :: |code| == 12
  }

  /** An entry of `compressed_data`: the packed code, its table and the URL. */
  datatype Record = Record(compressed: string, huffmanCodes: map<char, Bits>, originalUrl: string)

  /** The record `shorten_url` stores for `code` and `url`. */
  ghost predicate RecordFor(code: string, url: string, rec: Record) {
    && rec.originalUrl == url
    && IsCodeTableFor(code, rec.huffmanCodes)
    && Pack(code, rec.huffmanCodes) == Success(rec.compressed)
  }

  /** `compressed_data` holds exactly one record per short code, the one `shorten_url` wrote. */
  ghost predicate RecordsFor(codeToUrl: map<string, string>, compressedData: map<string, Record>) {
    && compressedData.Keys == codeToUrl.Keys
    && forall code | code in compressedData :: RecordFor(code, codeToUrl[code], compressedData[code])
  }

  lemma InsertKeepsRecords(codeToUrl: map<string, string>, compressedData: map<string, Record>, code: string, rec: Record)
    requires RecordsFor(codeToUrl, compressedData)
    requires RecordFor(code, rec.originalUrl, rec)
    ensures RecordsFor(codeToUrl[code := rec.originalUrl], compressedData[code := rec])
  {
  }

  /** The three maps of a store agree with each other. */
  ghost predicate Consistent(urlToCode: map<string, string>, codeToUrl: map<string, string>,
                             compressedData: map<string, Record>) {
    && MutualInverses(urlToCode, codeToUrl)
    && TwelveCharacterCodes(codeToUrl)
    && RecordsFor(codeToUrl, compressedData)
  }

  /**
   * Storing a new URL under a fresh 12-character code, with the record built
   * for it, keeps all three maps consistent.
   */
  lemma InsertKeepsStore(urlToCode: map<string, string>, codeToUrl: map<string, string>,
                         compressedData: map<string, Record>, code: string, rec: Record)
    requires Consistent(urlToCode, codeToUrl, compressedData)
    requires rec.originalUrl !in urlToCode && code !in codeToUrl
    requires |code| == 12 && RecordFor(code, rec.originalUrl, rec)
    ensures Consistent(urlToCode[rec.originalUrl := code], codeToUrl[code := rec.originalUrl],
                       compressedData[code := rec])
  {
    InsertKeepsInverses(urlToCode, codeToUrl, rec.originalUrl, code);
    InsertKeepsRecords(codeToUrl, compressedData, code, rec);
  }

  /**
   * What a stored compressed code decodes to under its own table: the short
   * code, followed only by what the pad bits decode to.
   */
  lemma StoredRecordDecodes(code: string, url: string, rec: Record)
    requires |code| > 0 && RecordFor(code, url, rec)
    ensures Decompressed(rec.compressed, rec.huffmanCodes).Some?
    ensures var out := Decompressed(rec.compressed, rec.huffmanCodes).value;
            |code| <= |out| < |code| + 8 && out[..|code|] == code
  {
    DecompressPack(code, rec.huffmanCodes);
    DecompressPackPrefix(code, rec.huffmanCodes);
  }

  /** The `if` test inside `expand_url`'s loop: the query decodes, under the record's table, to a code of the record's URL. */
  predicate Accepts(codeToUrl: map<string, string>, query: string, rec: Record) {
    var d := Decompressed(query, rec.huffmanCodes);
    d.Some? && d.value in codeToUrl && codeToUrl[d.value] == rec.originalUrl
  }

  /** A store holding one URL, under a 12-character code and the record built for it, is consistent. */
  lemma SingleRecordStore(code: string, url: string, rec: Record)
    requires |code| == 12 && RecordFor(code, url, rec)
    ensures Consistent(map[url := code], map[code := url], map[code := rec])
  {
  }

  /**
   * A stored URL need not expand from its own compressed code. A short code
   * made of one character repeated twelve times, such as "aaaaaaaaaaaa",
   * gets the table {c: "0"}; its twelve bits are padded with four zeros, and
   * the text decodes to sixteen copies. In a store holding only this URL,
   * that is no stored code, so the record does not accept its own
   * compressed code.
   */
  lemma OwnTextNotAccepted(c: char, url: string)
    ensures var code, codes := Repeat(c, 12), map[c := [false]];
            && Pack(code, codes).Success?
            && var rec := Record(Pack(code, codes).value, codes, url);
               && Consistent(map[url := code], map[code := url], map[code := rec])
               && Decompressed(rec.compressed, codes) == Some(Repeat(c, 16))
               && !Accepts(map[code := url], rec.compressed, rec)
  {
    var code, codes := Repeat(c, 12), map[c := [false]];
    assert PaddingLength(12) == 4;
    RepeatedCharacterRoundTrip(c, 12);
    RepeatAppend(c, 12, 4);
    var rec := Record(Pack(code, codes).value, codes, url);
    SingleRecordStore(code, url, rec);
    assert Repeat(c, 16) !in map[code := url] by {
      assert |Repeat(c, 16)| != |code|;
    }
  }

  class UrlShortener {
    var urlToCode: map<string, string>
    var codeToUrl: map<string, string>
    var compressedData: map<string, Record>
    /** The SHA-256 hash of a URL's UTF-8 bytes. */
    const sha256: string -> Digest

    ghost predicate Valid()
      reads this
    {
      Consistent(urlToCode, codeToUrl, compressedData)
    }

    constructor (sha256: string -> Digest)
      ensures Valid() && this.sha256 == sha256
      ensures urlToCode == map[] && codeToUrl == map[] && compressedData == map[]
    {
      this.sha256 := sha256;
      urlToCode, codeToUrl, compressedData := map[], map[], map[];
    }

    /**
     * `shorten_url`. A stored URL gets its stored code and compressed code
     * back with nothing changed; a new URL gets a fresh code, and all three
     * maps gain its entries; when no fresh code is found, `ValueError` and
     * nothing changes.
     */
    method ShortenUrl(longUrl: string, draws: nat -> Suffix) returns (r: Result<(string, string), ShortenError>)
      requires Valid()
      modifies this
      ensures Valid()
      ensures longUrl in old(urlToCode) ==>
        && r == Success((old(urlToCode)[longUrl], old(compressedData)[old(urlToCode)[longUrl]].compressed))
        && urlToCode == old(urlToCode) && codeToUrl == old(codeToUrl) && compressedData == old(compressedData)
      ensures longUrl !in old(urlToCode) && r.Failure? ==>
        && r.error == ShortenError.ValueError
        && (forall k | 0 <= k < MaxCollisionAttempts :: Candidate(sha256(longUrl), draws, k) in old(codeToUrl))
        && urlToCode == old(urlToCode) && codeToUrl == old(codeToUrl) && compressedData == old(compressedData)
      ensures longUrl !in old(urlToCode) && r.Success? ==>
        && r.value.0 !in old(codeToUrl)
        && (exists k | 0 <= k < MaxCollisionAttempts ::
              && r.value.0 == Candidate(sha256(longUrl), draws, k)
              && forall j | 0 <= j < k :: Candidate(sha256(longUrl), draws, j) in old(codeToUrl))
        && urlToCode == old(urlToCode)[longUrl := r.value.0]
        && codeToUrl == old(codeToUrl)[r.value.0 := longUrl]
        && compressedData == old(compressedData)[r.value.0 := compressedData[r.value.0]]
        && RecordFor(r.value.0, longUrl, compressedData[r.value.0])
        && compressedData[r.value.0].compressed == r.value.1
    {
      if longUrl in urlToCode {
        var shortCode := urlToCode[longUrl];
        var compressedInfo := compressedData[shortCode];
        return Success((shortCode, compressedInfo.compressed));
      }
      var generated := GenerateShortCode(sha256(longUrl), codeToUrl, draws);
      if generated.Failure? {
        return Failure(generated.error);
      }
      var shortCode := generated.value;
      ghost var k :| && 0 <= k < MaxCollisionAttempts && shortCode == Candidate(sha256(longUrl), draws, k)
                     && forall j | 0 <= j < k :: Candidate(sha256(longUrl), draws, j) in codeToUrl;
      var compressedStr := Store(longUrl, shortCode);
      return Success((shortCode, compressedStr));
    }

    /**
     * The second half of `shorten_url`: map the new URL and its fresh code to each other,
     * compress the code, and store the record under the code.
     */
    method Store(longUrl: string, shortCode: string) returns (compressedStr: string)
      requires Valid() && longUrl !in urlToCode && shortCode !in codeToUrl && |shortCode| == 12
      modifies this
      ensures Valid()
      ensures urlToCode == old(urlToCode)[longUrl := shortCode]
      ensures codeToUrl == old(codeToUrl)[shortCode := longUrl]
      ensures compressedData == old(compressedData)[shortCode := compressedData[shortCode]]
      ensures RecordFor(shortCode, longUrl, compressedData[shortCode])
      ensures compressedData[shortCode].compressed == compressedStr
      ensures (forall i | 0 <= i < 12 :: shortCode[i] == shortCode[0]) ==>
        compressedData[shortCode].huffmanCodes == map[shortCode[0] := [false]]
    {
      var compressed := Compress(shortCode);
      var rec := Record(compressed.value.0, compressed.value.1, longUrl);
      compressedStr := rec.compressed;
      InsertKeepsStore(urlToCode, codeToUrl, compressedData, shortCode, rec);
      urlToCode := urlToCode[longUrl := shortCode];
      codeToUrl := codeToUrl[shortCode := longUrl];
      compressedData := compressedData[shortCode := rec];
    }

    /**
     * A stored URL is found through its own record exactly when its
     * compressed code decodes back to its short code with nothing extra.
     */
    lemma OwnTextAccepted(code: string)
      requires Valid() && code in compressedData
      ensures Accepts(codeToUrl, compressedData[code].compressed, compressedData[code])
              <==> Decompressed(compressedData[code].compressed, compressedData[code].huffmanCodes) == Some(code)
    {
      var rec := compressedData[code];
      var d := Decompressed(rec.compressed, rec.huffmanCodes);
      if Accepts(codeToUrl, rec.compressed, rec) {
        assert codeToUrl[d.value] == codeToUrl[code];
        assert urlToCode[codeToUrl[d.value]] == d.value && urlToCode[codeToUrl[code]] == code;
      }
    }

    /**
     * `expand_url`: scans the records (in an order the model leaves open)
     * and returns the URL of the first one whose table decodes the query to
     * a code of that same URL; `None` when no record does. Nothing changes.
     * In a valid store a hit means the query decodes, under that record's
     * own table, to exactly that record's short code.
     */
    method ExpandUrl(compressedCode: string) returns (r: Option<string>)
      ensures r.Some? <==> exists code | code in compressedData :: Accepts(codeToUrl, compressedCode, compressedData[code])
      ensures r.Some? ==> exists code | code in compressedData ::
        Accepts(codeToUrl, compressedCode, compressedData[code]) && r.value == compressedData[code].originalUrl
      ensures Valid() && r.Some? ==> exists code | code in compressedData ::
        && Decompressed(compressedCode, compressedData[code].huffmanCodes) == Some(code)
        && r.value == codeToUrl[code]
      ensures (Valid() && exists code | code in compressedData ::
                 Decompressed(compressedCode, compressedData[code].huffmanCodes) == Some(code))
              ==> r.Some?
    {
      var remaining := compressedData.Keys;
      while remaining != {}
        invariant remaining <= compressedData.Keys
        invariant forall code | code in compressedData && code !in remaining ::
          !Accepts(codeToUrl, compressedCode, compressedData[code])
        decreases |remaining|
      {
        var shortCode :| shortCode in remaining;
        var data := compressedData[shortCode];
        var decompressed := Decompress(compressedCode, data.huffmanCodes);
        if decompressed.Some? && decompressed.value in codeToUrl && codeToUrl[decompressed.value] == data.originalUrl {
          assert Valid() ==> decompressed.value == shortCode by {
            if Valid() {
              assert urlToCode[codeToUrl[decompressed.value]] == decompressed.value;
            }
          }
          return Some(codeToUrl[decompressed.value]);
        }
        remaining := remaining - {shortCode};
      }
      return None;
    }
  }

  /**
   * The same example through the store's own operations: a new store records
   * a URL under a short code made of one character repeated twelve times (the
   * code `shorten_url` stores when the generator returns it), and expanding
   * that URL's compressed code finds nothing.
   */
  method OwnCodeNotFound(sha256: string -> Digest, c: char, url: string) returns (r: Option<string>)
    ensures r == None
  {
    var store := new UrlShortener(sha256);
    var code := Repeat(c, 12);
    assert forall i | 0 <= i < 12 :: code[i] == code[0];
    var text := store.Store(url, code);
    ghost var rec := store.compressedData[code];
    OnlyRecordRejects(c, url, rec);
    assert store.compressedData == map[code := rec] && store.codeToUrl == map[code := url];
    r := store.ExpandUrl(text);
  }

  /** A record written for the code of one repeated character does not accept its own compressed code. */
  lemma OnlyRecordRejects(c: char, url: string, rec: Record)
    requires RecordFor(Repeat(c, 12), url, rec) && rec.huffmanCodes == map[c := [false]]
    ensures !Accepts(map[Repeat(c, 12) := url], rec.compressed, rec)
  {
    OwnTextNotAccepted(c, url);
  }
}
