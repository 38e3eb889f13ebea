/** The part of an HS256 JSON Web Token the server relies on: a signed
    string of three dot-separated segments, and the check `jwt.Parse`
    makes with a key function that accepts only "HS256". Encoding and the
    HMAC itself are abstract. */
module Jwt {
  import opened Outcomes
  import opened Text

  /** The token library together with the server's fixed signing key:
      `headerSeg(alg)` is the encoded header naming `alg`, `claimsSeg`
      the encoded `username`/`exp` claims, `algOf` the `alg` of a header
      segment (`None` when it does not decode), `claimsDecode` whether a
      claims segment decodes, `mac` the encoded HMAC of a signing string
      under the key, and `verifies(m, sig)` the library's signature check:
      `sig` decoded as base64url (padding restored, unused trailing bits
      ignored) equals the HMAC of `m` byte for byte. That decoding is
      lenient, so `mac(m)` need not be the only text that verifies. */
  datatype Lib = Lib(
    headerSeg: string -> string,
    claimsSeg: (string, int) -> string,
    algOf: string -> Option<string>,
    claimsDecode: string -> bool,
    mac: string -> string,
    verifies: (string, string) -> bool)

  const Hs256: string := "HS256"

  /** A base64url encoding of non-empty data: not empty, and holding
      neither a dot nor a space. */
  predicate SegmentText(s: string)
  {
    s != "" && '.' !in s && ' ' !in s
  }

  /** What the encoders guarantee: segments are base64url text, a header
      or claims segment the library wrote decodes again, and the MAC the
      library wrote verifies. */
  ghost predicate Wellformed(lib: Lib)
  {
    && (forall a :: SegmentText(lib.headerSeg(a)))
    && (forall u, e :: SegmentText(lib.claimsSeg(u, e)))
    && (forall m :: SegmentText(lib.mac(m)))
    && (forall a :: lib.algOf(lib.headerSeg(a)) == Some(a))
    && (forall u, e :: lib.claimsDecode(lib.claimsSeg(u, e)))
    && (forall m :: lib.verifies(m, lib.mac(m)))
  }

  /** `token.SignedString(key)` for `jwt.NewWithClaims(SigningMethodHS256, …)`:
      header and claims, then the MAC of those two. */
  function SignedString(lib: Lib, username: string, exp: int): string
  {
    var h := lib.headerSeg(Hs256);
    var c := lib.claimsSeg(username, exp);
    h + "." + c + "." + lib.mac(h + "." + c)
  }

  /** A signed token splits at its dots into header, claims and the MAC
      of the first two. */
  lemma SignedSegments(lib: Lib, username: string, exp: int)
    requires Wellformed(lib)
    ensures var h := lib.headerSeg(Hs256);
            var c := lib.claimsSeg(username, exp);
            Split(SignedString(lib, username, exp), '.') == [h, c, lib.mac(h + "." + c)]
  {
    var h := lib.headerSeg(Hs256);
    var c := lib.claimsSeg(username, exp);
    SplitThree(h, c, lib.mac(h + "." + c), '.');
  }

  /** `jwt.Parse(token, keyFunc)` succeeds and the token is valid: three
      segments, a header naming HS256 (the key function refuses any other
      algorithm), decodable claims and a signature that verifies against
      the first two segments. */
  predicate Parse(lib: Lib, token: string)
  {
    var parts := Split(token, '.');
    && |parts| == 3
    && lib.algOf(parts[0]) == Some(Hs256)
    && lib.claimsDecode(parts[1])
    && lib.verifies(parts[0] + "." + parts[1], parts[2])
  }

  /** Header, claims and signature segments of a token the check accepts:
      dot-free, an HS256 header, decodable claims, a verifying
      signature. */
  predicate ValidSegments(lib: Lib, h: string, c: string, sig: string)
  {
    && '.' !in h && '.' !in c && '.' !in sig
    && lib.algOf(h) == Some(Hs256)
    && lib.claimsDecode(c)
    && lib.verifies(h + "." + c, sig)
  }

  /** A token parses exactly when it is three valid segments joined by
      dots. */
  lemma ParseShape(lib: Lib, token: string)
    ensures Parse(lib, token) <==>
              exists h, c, sig :: token == h + "." + c + "." + sig && ValidSegments(lib, h, c, sig)
  {
    var p := Split(token, '.');
    if Parse(lib, token) {
      JoinSplit(token, '.');
      assert p[1..] == [p[1], p[2]];
      JoinTwo(p[1], p[2], '.');
      assert token == p[0] + "." + p[1] + "." + p[2];
      assert ValidSegments(lib, p[0], p[1], p[2]);
    }
    if exists h, c, sig :: token == h + "." + c + "." + sig && ValidSegments(lib, h, c, sig) {
      var h, c, sig :| token == h + "." + c + "." + sig && ValidSegments(lib, h, c, sig);
      SplitThree(h, c, sig, '.');
    }
  }

  /** Every token the server signs parses. */
  lemma ParseSigned(lib: Lib, username: string, exp: int)
    requires Wellformed(lib)
    ensures Parse(lib, SignedString(lib, username, exp))
  {
    SignedSegments(lib, username, exp);
  }

  /** Behind dot-free header and claims segments, the third segment
      decides: the token parses exactly when that segment is dot-free and
      verifies against "header.claims" under an HS256 header with
      decodable claims. */
  lemma ParseThirdSegment(lib: Lib, h: string, c: string, sig: string)
    requires '.' !in h && '.' !in c
    ensures Parse(lib, h + "." + c + "." + sig) <==> ValidSegments(lib, h, c, sig)
  {
    SplitAfter(h, c + "." + sig, '.');
    assert h + "." + c + "." + sig == h + "." + (c + "." + sig);
    SplitAfter(c, sig, '.');
    SplitSingle(sig, '.');
  }
}
