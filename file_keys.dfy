/**
  Recognising images stored in the object store (server/utils/listingCleanup.js,
  `fileKeyFromPublicUrl` and the guard of `deleteImageFromR2IfStored`).
  The configured public base (the `R2_PUBLIC_BASE` environment variable) is a
  parameter.
*/
module FileKeys {
  import opened Wrappers
  import opened Js

  /** The configured base with at most one trailing `/` removed. */
  function NormalizeBase(base: string): (nb: string)
    ensures nb + (if EndsWithSlash(base) then "/" else "") == base
  {
    if EndsWithSlash(base) then base[..|base| - 1] else base
  }

  /** The storage key of an image URL: what follows `normalizedBase + "/"`,
      or `None` when the URL or the base is not a non-empty string or the
      URL lies outside the base. A key that is returned rebuilds the URL. */
  function FileKeyFromPublicUrl(imageUrl: JsValue, base: JsValue): (r: Option<string>)
    ensures r.Some? <==>
      && IsNonEmptyString(imageUrl)
      && IsNonEmptyString(base)
      && StartsWith(imageUrl.s, NormalizeBase(base.s) + "/")
    ensures r.Some? ==> NormalizeBase(base.s) + "/" + r.value == imageUrl.s
  {
    if !IsNonEmptyString(imageUrl) then None
    else if !IsNonEmptyString(base) then None
    else
      var nb := NormalizeBase(base.s);
      if !StartsWith(imageUrl.s, nb + "/") then None
      else
        var key := imageUrl.s[|nb| + 1..];
        assert imageUrl.s == imageUrl.s[..|nb| + 1] + key;
        Some(key)
  }

  /** Round trip: the key of `normalizedBase + "/" + k` is `k`, for every `k`,
      including the empty one. */
  lemma FileKeyRoundTrip(base: string, k: string)
    requires base != ""
    ensures FileKeyFromPublicUrl(JsString(NormalizeBase(base) + "/" + k), JsString(base)) == Some(k)
  {
    var nb := NormalizeBase(base);
    var url := nb + "/" + k;
    assert url[..|nb + "/"|] == nb + "/";
    assert url[|nb| + 1..] == k;
  }

  /** A key is determined by its URL and vice versa, for a fixed base. */
  lemma FileKeyInjective(u1: JsValue, u2: JsValue, base: JsValue)
    requires FileKeyFromPublicUrl(u1, base).Some?
    requires FileKeyFromPublicUrl(u1, base) == FileKeyFromPublicUrl(u2, base)
    ensures u1 == u2
  {
  }

  /** A base written with one trailing `/` recognises the same URLs, with the
      same keys, as the base written without it. */
  lemma TrailingSlashIrrelevant(imageUrl: JsValue, base: string)
    requires base != "" && !EndsWithSlash(base)
    ensures FileKeyFromPublicUrl(imageUrl, JsString(base + "/"))
         == FileKeyFromPublicUrl(imageUrl, JsString(base))
  {
    assert (base + "/")[..|base + "/"| - 1] == base;
  }

  /** The guard of `deleteImageFromR2IfStored`: the key to delete, present
      only when the derived key is truthy (non-empty). */
  function AssetKeyToDelete(imageUrl: JsValue, base: JsValue): (r: Option<string>)
    ensures r.Some? <==>
      FileKeyFromPublicUrl(imageUrl, base).Some? && FileKeyFromPublicUrl(imageUrl, base).value != ""
    ensures r.Some? ==> r == FileKeyFromPublicUrl(imageUrl, base)
  {
    match FileKeyFromPublicUrl(imageUrl, base)
    case Some(key) => if key != "" then Some(key) else None
    case None => None
  }

  /** The URL `normalizedBase + "/"` itself names no object: its key is empty
      and nothing is deleted for it. */
  lemma BareBaseIsSkipped(base: string)
    requires base != ""
    ensures FileKeyFromPublicUrl(JsString(NormalizeBase(base) + "/"), JsString(base)) == Some("")
    ensures AssetKeyToDelete(JsString(NormalizeBase(base) + "/"), JsString(base)) == None
  {
    FileKeyRoundTrip(base, "");
    assert NormalizeBase(base) + "/" + "" == NormalizeBase(base) + "/";
  }

  /** Only URLs under the base ever lead to a deletion: for such a URL the
      deleted key is the URL with the base and its slash stripped. */
  lemma DeletedKeyIsUnderBase(imageUrl: JsValue, base: JsValue)
    requires AssetKeyToDelete(imageUrl, base).Some?
    ensures imageUrl.JsString? && base.JsString?
    ensures imageUrl.s == NormalizeBase(base.s) + "/" + AssetKeyToDelete(imageUrl, base).value
    ensures StartsWith(imageUrl.s, NormalizeBase(base.s) + "/")
  {
  }
}
