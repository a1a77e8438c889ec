// The article record and its identifier (core/models.py).
//
// The hash, the text encoding and the timestamp rendering come from libraries
// outside the model; they are passed in as a `Primitives` value. Only the
// digest size (12 bytes) is fixed, and the lowercase hex rendering of the
// digest is modelled concretely.

module Models {
  import opened Wrappers

  newtype byte = x: int | 0 <= x < 256

  /** `hashlib.blake2b(digest_size=12)` */
  const DigestSize := 12

  type Digest = d: seq<byte> | |d| == DigestSize witness [0, 0, 0, 0, 0, 0, 0, 0, 0, 0, 0, 0]

  /** A `datetime`; only its presence and its `isoformat()` text reach the id. */
  datatype DateTime = DateTime(
    year: int, month: int, day: int,
    hour: int, minute: int, second: int, microsecond: int,
    utcOffsetMinutes: Option<int>)

  /** The library operations `generate_article_id` relies on. */
  datatype Primitives = Primitives(
    encodeUtf8: string -> seq<byte>,
    blake2b: seq<byte> -> Digest,
    isoformat: DateTime -> string)

  /**
   * A parsed feed entry. Every field but `id` has a default: the optional
   * ones are absent and `categories` is an empty list of its own.
   */
  datatype Article = Article(
    id: string,
    title: Option<string> := None,
    url: Option<string> := None,
    publishedAt: Option<DateTime> := None,
    summary: Option<string> := None,
    categories: seq<string> := [],
    sourceTitle: Option<string> := None)

  lemma ArticleDefaults(id: string)
    ensures var a := Article(id);
      && a.id == id
      && a.title == None && a.url == None && a.publishedAt == None
      && a.summary == None && a.sourceTitle == None
      && a.categories == []
  {
  }

  // ---------------------------------------------------------------- hex rendering

  predicate IsHexChar(c: char) {
    '0' <= c <= '9' || 'a' <= c <= 'f'
  }

  predicate AllHex(s: string) {
    forall i :: 0 <= i < |s| ==> IsHexChar(s[i])
  }

  /** The lowercase hex digit for a nibble. */
  function HexChar(v: int): (c: char)
    requires 0 <= v < 16
    ensures IsHexChar(c)
  {
    if v < 10 then ('0' as int + v) as char else ('a' as int + v - 10) as char
  }

  /** The nibble a hex digit stands for; inverse of HexChar. */
  function HexValue(c: char): (v: int)
    requires IsHexChar(c)
    ensures 0 <= v < 16 && HexChar(v) == c
  {
    if c <= '9' then c as int - '0' as int else c as int - 'a' as int + 10
  }

  /** `hexdigest()`: two lowercase digits per byte, high nibble first. */
  function Hex(bytes: seq<byte>): (s: string)
    ensures |s| == 2 * |bytes|
    ensures AllHex(s)
  {
    if bytes == [] then []
    else [HexChar(bytes[0] as int / 16), HexChar(bytes[0] as int % 16)] + Hex(bytes[1..])
  }

  /** Reads a hex string back into bytes. */
  function FromHex(s: string): (bytes: seq<byte>)
    requires |s| % 2 == 0 && AllHex(s)
    ensures |bytes| == |s| / 2
  {
    if s == [] then []
    else [(HexValue(s[0]) * 16 + HexValue(s[1])) as byte] + FromHex(s[2..])
  }

  lemma {:induction false} FromHexHex(bytes: seq<byte>)
    ensures FromHex(Hex(bytes)) == bytes
  {
    if bytes != [] {
      var b := bytes[0] as int;
      var s := Hex(bytes);
      assert s[2..] == Hex(bytes[1..]);
      assert HexValue(s[0]) == b / 16 && HexValue(s[1]) == b % 16;
      FromHexHex(bytes[1..]);
    }
  }

  /** Distinct digests render differently, so ids collide only when digests do. */
  lemma HexInjective(a: seq<byte>, b: seq<byte>)
    ensures Hex(a) == Hex(b) <==> a == b
  {
    if Hex(a) == Hex(b) {
      FromHexHex(a);
      FromHexHex(b);
    }
  }

  // ---------------------------------------------------------------- ids

  /** The fallback id; the docstring names it "missing_id", the code returns this. */
  const MissingIdSentinel := "missing_url"

  /** What every hash-based id looks like: 24 lowercase hex digits. */
  predicate IsHashedId(s: string) {
    |s| == 2 * DigestSize && AllHex(s)
  }

  /** Python truthiness of an optional string: present and non-empty. */
  predicate Truthy(s: Option<string>) {
    s.Some? && s.value != ""
  }

  /** The hex digest of the UTF-8 bytes of `text`. */
  function HashedId(p: Primitives, text: string): (id: string)
    ensures IsHashedId(id)
  {
    Hex(p.blake2b(p.encodeUtf8(text)))
  }

  /** The text hashed when there is no url: title, a bar, then the ISO timestamp. */
  function TitleKey(p: Primitives, title: string, publishedAt: DateTime): string {
    title + "|" + p.isoformat(publishedAt)
  }

  /**
   * `generate_article_id`: the url if it is truthy, else title and
   * timestamp if both are, else the sentinel.
   */
  function GenerateArticleId(p: Primitives, url: Option<string>, title: Option<string>, publishedAt: Option<DateTime>): (id: string)
    ensures id == MissingIdSentinel || IsHashedId(id)
  {
    if Truthy(url) then HashedId(p, url.value)
    else if Truthy(title) && publishedAt.Some? then HashedId(p, TitleKey(p, title.value, publishedAt.value))
    else MissingIdSentinel
  }

  /** The sentinel has the wrong length for a hashed id and contains non-hex letters. */
  lemma SentinelNotHashed()
    ensures |MissingIdSentinel| == 11
    ensures !IsHexChar(MissingIdSentinel[0])
    ensures !IsHashedId(MissingIdSentinel)
  {
  }

  /** The sentinel comes back exactly when neither the url nor title plus timestamp is usable. */
  lemma SentinelExactlyWhenNoKey(p: Primitives, url: Option<string>, title: Option<string>, publishedAt: Option<DateTime>)
    ensures GenerateArticleId(p, url, title, publishedAt) == MissingIdSentinel
        <==> !Truthy(url) && !(Truthy(title) && publishedAt.Some?)
    ensures GenerateArticleId(p, url, title, publishedAt) != MissingIdSentinel
        ==> IsHashedId(GenerateArticleId(p, url, title, publishedAt))
  {
    SentinelNotHashed();
  }

  /** A truthy url decides the id on its own, whatever the title and timestamp. */
  lemma UrlTakesPriority(p: Primitives, url: string, title1: Option<string>, at1: Option<DateTime>,
                         title2: Option<string>, at2: Option<DateTime>)
    requires url != ""
    ensures GenerateArticleId(p, Some(url), title1, at1) == GenerateArticleId(p, Some(url), title2, at2)
    ensures GenerateArticleId(p, Some(url), title1, at1) == Hex(p.blake2b(p.encodeUtf8(url)))
  {
  }

  /** Without a url, the id is the digest of "title|isoformat(published_at)". */
  lemma TitleFallback(p: Primitives, url: Option<string>, title: string, at: DateTime)
    requires !Truthy(url) && title != ""
    ensures GenerateArticleId(p, url, Some(title), Some(at))
         == Hex(p.blake2b(p.encodeUtf8(title + "|" + p.isoformat(at))))
  {
  }

  /** An empty url or title behaves exactly like a missing one. */
  lemma EmptyIsAbsent(p: Primitives, url: Option<string>, title: Option<string>, at: Option<DateTime>)
    ensures GenerateArticleId(p, Some(""), title, at) == GenerateArticleId(p, None, title, at)
    ensures GenerateArticleId(p, url, Some(""), at) == GenerateArticleId(p, url, None, at)
  {
  }

  /** Two url-based ids are equal exactly when the digests of the two urls are. */
  lemma UrlIdsCollideOnlyOnDigest(p: Primitives, u1: string, u2: string)
    requires u1 != "" && u2 != ""
    ensures GenerateArticleId(p, Some(u1), None, None) == GenerateArticleId(p, Some(u2), None, None)
        <==> p.blake2b(p.encodeUtf8(u1)) == p.blake2b(p.encodeUtf8(u2))
  {
    HexInjective(p.blake2b(p.encodeUtf8(u1)), p.blake2b(p.encodeUtf8(u2)));
  }
}
