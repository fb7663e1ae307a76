/**
 * `_generate_short_code`: an 8-character prefix determined by the URL's
 * SHA-256 digest, followed by 4 random lowercase letters, retried up to
 * `max_collision_attempts` times until the code is not already in use.
 *
 * The digest is an input (SHA-256 itself is not modelled); the random draws
 * are an input stream `draws`, whose k-th element is the k-th
 * `random.choices(string.ascii_lowercase, k=4)` result.
 */
module ShortCode {
  import opened Wrappers
  import opened BitString
  import Base64Url

  /** A SHA-256 digest. */
  type Digest = d: seq<byte> | |d| == 32 witness seq(32, i => 0 as byte)

  /** Four lowercase ASCII letters. */
  type Suffix = s: string | |s| == 4 && forall i | 0 <= i < |s| :: 'a' <= s[i] <= 'z' witness "aaaa"

  /** The exceptions `shorten_url` can raise. */
  datatype ShortenError =
    | ValueError  // no unused short code after `max_collision_attempts` draws
    | KeyError    // a dictionary lookup of a missing key

  /** `self.max_collision_attempts`. */
  const MaxCollisionAttempts: nat := 10

  /** `s.rstrip('=')`. */
  function RStripPad(s: string): (r: string)
    ensures |r| <= |s| && r == s[..|r|]
    ensures |r| > 0 ==> r[|r| - 1] != '='
    ensures forall i | |r| <= i < |s| :: s[i] == '='
  {
    if |s| > 0 && s[|s| - 1] == '=' then RStripPad(s[..|s| - 1]) else s
  }

  /** Eight bytes encode as eleven alphabet characters and one '='. */
  lemma EncodeEightBytes(b: seq<byte>)
    requires |b| == 8
    ensures var s := Base64Url.Encode(b);
            |s| == 12 && s[11] == '=' && forall i | 0 <= i < 11 :: Base64Url.ValueOf(s[i]).Some?
  {
    var s := Base64Url.Encode(b);
    var t := Base64Url.Encode(b[3..]);
    var u := Base64Url.Encode(b[3..][3..]);
    assert |b[3..][3..]| == 2;
    assert s == s[..4] + t && t == t[..4] + u;
    forall i | 0 <= i < 11
      ensures Base64Url.ValueOf(s[i]).Some?
    {
      if i >= 8 {
        assert s[i] == u[i - 8];
      } else if i >= 4 {
        assert s[i] == t[i - 4];
      }
    }
  }

  /**
   * The hash part of `_generate_short_code`: base64url of the digest's first 8 bytes (`hash_hex[:16]`), with
   * the '=' padding stripped, cut to 8 characters.
   */
  function Prefix(digest: Digest): (p: string)
    ensures |p| == 8
    ensures forall i | 0 <= i < 8 :: Base64Url.ValueOf(p[i]).Some?
  {
    var s := Base64Url.Encode(digest[..8]);
    EncodeEightBytes(digest[..8]);
    assert RStripPad(s) == s[..11] by {
      assert s[..11][10] != '=';
      assert s[..11][..10] == s[..10];
    }
    RStripPad(s)[..8]
  }

  /** The code tried at attempt `k`: the URL's prefix and the k-th draw. */
  function Candidate(digest: Digest, draws: nat -> Suffix, k: nat): (code: string)
    ensures |code| == 12 && code[..8] == Prefix(digest) && code[8..] == draws(k)
  {
    Prefix(digest) + draws(k)
  }

  /**
   * `_generate_short_code`: the first of the first `MaxCollisionAttempts`
   * candidates that is not a key of `codeToUrl`, or `ValueError` when all
   * of them are. Nothing is modified.
   */
  method GenerateShortCode(digest: Digest, codeToUrl: map<string, string>, draws: nat -> Suffix)
    returns (r: Result<string, ShortenError>)
    ensures r.Success? ==> r.value !in codeToUrl
    ensures r.Success? ==> exists k | 0 <= k < MaxCollisionAttempts ::
              && r.value == Candidate(digest, draws, k)
              && forall j | 0 <= j < k :: Candidate(digest, draws, j) in codeToUrl
    ensures r.Failure? ==> r.error == ValueError
    ensures r.Failure? <==> forall k | 0 <= k < MaxCollisionAttempts :: Candidate(digest, draws, k) in codeToUrl
  {
    for attempt := 0 to MaxCollisionAttempts
      invariant forall j | 0 <= j < attempt :: Candidate(digest, draws, j) in codeToUrl
    {
      var shortCode := Candidate(digest, draws, attempt);
      if shortCode !in codeToUrl {
        return Success(shortCode);
      }
    }
    return Failure(ValueError);
  }
}
