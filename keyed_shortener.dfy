/**
 * The URL store of _URL.py. The codec and the short-code generator are
 * those of URL.py; what differs is that `compressed_data` is keyed by the
 * compressed string (so a later record with the same compressed string
 * replaces an earlier one), its records carry no 'compressed' entry, and
 * `expand_url` is a direct lookup that trusts the decoded short code without
 * comparing it with the record's URL.
 */
module KeyedShortener {
  import opened Wrappers
  import opened BitString
  import opened HuffmanTree
  import opened HuffmanCodec
  import opened ShortCode
  import opened Shortener

  /** An entry of `compressed_data`: only the table and the URL. */
  datatype KeyedRecord = KeyedRecord(huffmanCodes: map<char, Bits>, originalUrl: string)

  /** Every record is stored under the compressed form of its URL's current short code. */
  ghost predicate RecordsKeyed(urlToCode: map<string, string>, compressedData: map<string, KeyedRecord>) {
    forall text | text in compressedData ::
      && compressedData[text].originalUrl in urlToCode
      && |urlToCode[compressedData[text].originalUrl]| > 0
      && IsCodeTableFor(urlToCode[compressedData[text].originalUrl], compressedData[text].huffmanCodes)
      && Pack(urlToCode[compressedData[text].originalUrl], compressedData[text].huffmanCodes) == Success(text)
  }

  /**
   * Storing a new URL's record under its compressed string keeps every
   * record consistent, including the one it may replace.
   */
  lemma InsertKeepsKeyed(urlToCode: map<string, string>, compressedData: map<string, KeyedRecord>,
                         code: string, text: string, rec: KeyedRecord)
    requires RecordsKeyed(urlToCode, compressedData) && rec.originalUrl !in urlToCode
    requires |code| > 0 && IsCodeTableFor(code, rec.huffmanCodes)
    requires Pack(code, rec.huffmanCodes) == Success(text)
    ensures RecordsKeyed(urlToCode[rec.originalUrl := code], compressedData[text := rec])
  {
  }

  class KeyedUrlShortener {
    var urlToCode: map<string, string>
    var codeToUrl: map<string, string>
    var compressedData: map<string, KeyedRecord>
    /** The SHA-256 hash of a URL's UTF-8 bytes. */
    const sha256: string -> Digest

    ghost predicate Valid()
      reads this
    {
      && MutualInverses(urlToCode, codeToUrl)
      && TwelveCharacterCodes(codeToUrl)
      && RecordsKeyed(urlToCode, compressedData)
    }

    constructor (sha256: string -> Digest)
      ensures Valid() && this.sha256 == sha256
      ensures urlToCode == map[] && codeToUrl == map[] && compressedData == map[]
    {
      this.sha256 := sha256;
      urlToCode, codeToUrl, compressedData := map[], map[], map[];
    }

    /**
     * `shorten_url` of _URL.py. For a stored URL the lookups
     * `self.compressed_data[short_code]` and `compressed_info['compressed']`
     * always raise `KeyError`: records are keyed by compressed string, and
     * even a record found under the short code has no 'compressed' entry.
     * A new URL gets a fresh code (the `while short_code in self.code_to_url`
     * re-generation loop is proved never to run); its record is written
     * under its compressed string, replacing any record already there.
     * Every failure leaves the store unchanged.
     */
    method ShortenUrl(longUrl: string, draws: nat -> Suffix)
      returns (r: Result<(string, string), ShortenError>)
      requires Valid()
      modifies this
      ensures Valid()
      ensures r.Failure? ==>
        urlToCode == old(urlToCode) && codeToUrl == old(codeToUrl) && compressedData == old(compressedData)
      ensures longUrl in old(urlToCode) ==> r == Failure(KeyError)
      ensures longUrl !in old(urlToCode) ==>
        (r.Failure? <==> forall k | 0 <= k < MaxCollisionAttempts :: Candidate(sha256(longUrl), draws, k) in old(codeToUrl))
      ensures longUrl !in old(urlToCode) && r.Success? ==>
        && r.value.0 !in old(codeToUrl)
        && (exists k | 0 <= k < MaxCollisionAttempts ::
              && r.value.0 == Candidate(sha256(longUrl), draws, k)
              && forall j | 0 <= j < k :: Candidate(sha256(longUrl), draws, j) in old(codeToUrl))
        && urlToCode == old(urlToCode)[longUrl := r.value.0]
        && codeToUrl == old(codeToUrl)[r.value.0 := longUrl]
        && r.value.1 in compressedData
        && compressedData == old(compressedData)[r.value.1 := compressedData[r.value.1]]
        && compressedData[r.value.1].originalUrl == longUrl
        && IsCodeTableFor(r.value.0, compressedData[r.value.1].huffmanCodes)
        && Pack(r.value.0, compressedData[r.value.1].huffmanCodes) == Success(r.value.1)
    {
      if longUrl in urlToCode {
        var shortCode := urlToCode[longUrl];
        if shortCode !in compressedData {
          return Failure(KeyError);
        }
        // compressed_info['compressed']: the record holds no such entry
        return Failure(KeyError);
      }
      var generated := GenerateShortCode(sha256(longUrl), codeToUrl, draws);
      if generated.Failure? {
        return Failure(generated.error);
      }
      var shortCode := generated.value;
      ghost var k :| && 0 <= k < MaxCollisionAttempts && shortCode == Candidate(sha256(longUrl), draws, k)
                     && forall j | 0 <= j < k :: Candidate(sha256(longUrl), draws, j) in codeToUrl;
      // the `while` loop re-generates while the code is taken; the generator
      // only returns unused codes, so that loop's guard is false here
      assert shortCode !in codeToUrl;
      var compressedStr := Store(longUrl, shortCode);
      return Success((shortCode, compressedStr));
    }

    /**
     * The second half of `shorten_url` in _URL.py: map the new URL and its
     * fresh code to each other, compress the code, and store the record under
     * the compressed string, replacing any record already there.
     */
    method Store(longUrl: string, shortCode: string) returns (compressedStr: string)
      requires Valid() && longUrl !in urlToCode && shortCode !in codeToUrl && |shortCode| == 12
      modifies this
      ensures Valid()
      ensures urlToCode == old(urlToCode)[longUrl := shortCode]
      ensures codeToUrl == old(codeToUrl)[shortCode := longUrl]
      ensures compressedStr in compressedData
      ensures compressedData == old(compressedData)[compressedStr := compressedData[compressedStr]]
      ensures compressedData[compressedStr].originalUrl == longUrl
      ensures IsCodeTableFor(shortCode, compressedData[compressedStr].huffmanCodes)
      ensures Pack(shortCode, compressedData[compressedStr].huffmanCodes) == Success(compressedStr)
    {
      InsertKeepsInverses(urlToCode, codeToUrl, longUrl, shortCode);
      var compressed := Compress(shortCode);
      var rec := KeyedRecord(compressed.value.1, longUrl);
      compressedStr := compressed.value.0;
      InsertKeepsKeyed(urlToCode, compressedData, shortCode, compressedStr, rec);
      urlToCode := urlToCode[longUrl := shortCode];
      codeToUrl := codeToUrl[shortCode := longUrl];
      compressedData := compressedData[compressedStr := rec];
    }

    /**
     * `expand_url` of _URL.py: the record stored under the query, the query
     * decoded with its table, and whatever URL `code_to_url` holds for the
     * decoded string; `None` when any step finds nothing.
     */
    function ExpandUrl(compressedCode: string): (r: Option<string>)
      reads this
      ensures Valid() && r.Some? ==> r.value in urlToCode
    {
      if compressedCode !in compressedData then None
      else
        var data := compressedData[compressedCode];
        match Decompressed(compressedCode, data.huffmanCodes)
        case None => None
        case Some(shortCode) => if shortCode in codeToUrl then Some(codeToUrl[shortCode]) else None
    }

    /**
     * A record whose compressed string decodes to exactly its URL's short
     * code expands to that URL.
     */
    lemma ExpandExact(text: string)
      requires Valid() && text in compressedData
      requires Decompressed(text, compressedData[text].huffmanCodes)
                 == Some(urlToCode[compressedData[text].originalUrl])
      ensures ExpandUrl(text) == Some(compressedData[text].originalUrl)
    {
      var url := compressedData[text].originalUrl;
      assert codeToUrl[urlToCode[url]] == url;
    }

    /**
     * A successful expansion looked up a stored record, and the short code
     * it decoded begins with that record's URL's short code. The decoded
     * string may carry extra characters from the padding bits, and the URL
     * returned is the one `code_to_url` holds for the decoded string, which
     * is not compared with the record's own URL.
     */
    lemma ExpandDecodesPrefix(text: string)
      requires Valid() && ExpandUrl(text).Some?
      ensures text in compressedData
      ensures var rec := compressedData[text];
              var code := urlToCode[rec.originalUrl];
              var out := Decompressed(text, rec.huffmanCodes).value;
              |code| <= |out| && out[..|code|] == code
              && codeToUrl[out] == ExpandUrl(text).value
    {
      var rec := compressedData[text];
      DecompressPackPrefix(urlToCode[rec.originalUrl], rec.huffmanCodes);
    }

    /**
     * Every short code has 12 characters, so a decoded string that is a
     * stored code and begins with the record's own code is that code: a
     * successful expansion returns the URL of the record stored under the
     * query.
     */
    lemma ExpandOwnUrl(text: string)
      requires Valid() && ExpandUrl(text).Some?
      ensures text in compressedData && ExpandUrl(text) == Some(compressedData[text].originalUrl)
    {
      ExpandDecodesPrefix(text);
      var rec := compressedData[text];
      var code := urlToCode[rec.originalUrl];
      var out := Decompressed(text, rec.huffmanCodes).value;
      assert |out| == 12 && |code| == 12;
      assert out == out[..12];
    }

    /**
     * As in the URL.py store, the pad bits can keep a URL from expanding:
     * a stored compressed code expands exactly when it decodes back to its
     * URL's short code with nothing extra.
     */
    lemma OwnTextExpands(text: string)
      requires Valid() && text in compressedData
      ensures ExpandUrl(text).Some? <==>
              Decompressed(text, compressedData[text].huffmanCodes)
                == Some(urlToCode[compressedData[text].originalUrl])
    {
      var rec := compressedData[text];
      if Decompressed(text, rec.huffmanCodes) == Some(urlToCode[rec.originalUrl]) {
        ExpandExact(text);
      }
      if ExpandUrl(text).Some? {
        ExpandDecodesPrefix(text);
        var out := Decompressed(text, rec.huffmanCodes).value;
        assert |out| == 12 && |urlToCode[rec.originalUrl]| == 12;
        assert out == out[..12];
      }
    }
  }
}
