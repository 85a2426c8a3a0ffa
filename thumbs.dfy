/**
 * `get_thumb_url` (apps/utils.py:343-382): the thumbnail of an image lives at
 * a path derived from the realm's plural name, the requested size and the
 * image's file name; its URL is memoised in a cache under a key built from
 * that path and the absolute-URL flag. The cache and the filesystem are the
 * state of a `ThumbStore`; decoding, resizing and saving the image is one
 * opaque step that makes the thumbnail file exist.
 */
module Thumbs {
  import opened Wrappers
  import opened Text

  /** `os.path.join(a, b)` on POSIX. */
  function PathJoin(a: string, b: string): string
  {
    if b != [] && b[0] == '/' then b
    else if a == [] || a[|a| - 1] == '/' then a + b
    else a + "/" + b
  }

  /** `os.path.join(a, *parts)`: the parts joined one after the other. */
  function PathJoinAll(a: string, parts: seq<string>): string
  {
    if parts == [] then a else PathJoin(PathJoinAll(a, parts[..|parts| - 1]), parts[|parts| - 1])
  }

  /** `'%sx%s' % (width, height)`. */
  function SizeName(width: nat, height: nat): string
  {
    DecimalString(width) + "x" + DecimalString(height)
  }

  /** `base_path`: `img/<name_plural>/thumbs/<W>x<H>`. */
  function ThumbBasePath(namePlural: string, width: nat, height: nat): string
  {
    PathJoinAll("img", [namePlural, "thumbs", SizeName(width, height)])
  }

  /**
   * `thumb_file_base`, relative to the media root: the base path joined with
   * the image's file name; `None` when the image has no resolvable path (the
   * `ValueError`/`AttributeError` of `image.path`).
   */
  function ThumbFileBase(namePlural: string, imagePath: Option<string>, width: nat, height: nat): Option<string>
  {
    match imagePath
    case None => None
    case Some(p) => Some(PathJoin(ThumbBasePath(namePlural, width, height), LastSegment(p)))
  }

  /** `'%s' % flag` for a boolean. */
  function BoolName(b: bool): string
  {
    if b then "True" else "False"
  }

  /** `'thumbs|%s|%s' % (thumb_file_base, absolute_url)`. */
  function CacheKey(base: string, absolute: bool): string
  {
    "thumbs|" + base + "|" + BoolName(absolute)
  }

  /** The thumbnail URL: `MEDIA_URL` joined with the file's path, prefixed with `SITE_URL` when absolute. */
  function ThumbUrl(mediaUrl: string, siteUrl: string, base: string, absolute: bool): string
  {
    if absolute then siteUrl + PathJoin(mediaUrl, base) else PathJoin(mediaUrl, base)
  }

  /** Reads a cache key back into the thumbnail path and the flag it was built from. */
  function ParseCacheKey(k: string): Option<(string, bool)>
  {
    if |k| >= 12 && k[..7] == "thumbs|" && k[|k| - 5..] == "|True" then Some((k[7..|k| - 5], true))
    else if |k| >= 13 && k[..7] == "thumbs|" && k[|k| - 6..] == "|False" then Some((k[7..|k| - 6], false))
    else None
  }

  /** A cache key determines the thumbnail path and the flag: different ones never share a key. */
  lemma CacheKeyRoundTrip(base: string, absolute: bool)
    ensures ParseCacheKey(CacheKey(base, absolute)) == Some((base, absolute))
  {
    var k := CacheKey(base, absolute);
    assert k[..7] == "thumbs|";
    if absolute {
      assert k[|k| - 5..] == "|True";
      assert k[7..|k| - 5] == base;
    } else {
      assert k[|k| - 5..] == "False";
      assert k[|k| - 6..] == "|False";
      assert k[7..|k| - 6] == base;
    }
  }

  /**
   * With the usual settings (a `MEDIA_URL` ending in `/`) and a plural name
   * that is one path component, the URL of the thumbnail of an image whose
   * path is `p` is `MEDIA_URL` + `img/<name_plural>/thumbs/<W>x<H>/<basename>`,
   * prefixed with `SITE_URL` exactly when the absolute flag is set.
   */
  lemma ThumbUrlShape(mediaUrl: string, siteUrl: string, namePlural: string, p: string,
                      width: nat, height: nat, absolute: bool)
    requires mediaUrl != [] && mediaUrl[|mediaUrl| - 1] == '/'
    requires namePlural != [] && namePlural[0] != '/' && namePlural[|namePlural| - 1] != '/'
    ensures ThumbFileBase(namePlural, Some(p), width, height)
         == Some("img/" + namePlural + "/thumbs/" + SizeName(width, height) + "/" + LastSegment(p))
    ensures var base := ThumbFileBase(namePlural, Some(p), width, height).value;
      ThumbUrl(mediaUrl, siteUrl, base, absolute) == if absolute then siteUrl + mediaUrl + base else mediaUrl + base
  {
    BasePathShape(namePlural, width, height);
    var basePath := "img/" + namePlural + "/thumbs/" + SizeName(width, height);
    var seg := LastSegment(p);
    assert seg == [] || seg[0] != '/' by {
      LastSegmentTail(p);
      if seg != [] { assert seg[0] in seg; }
    }
    var base := basePath + "/" + seg;
    assert PathJoin(basePath, seg) == base;
    assert base[0] == 'i';
    assert PathJoin(mediaUrl, base) == mediaUrl + base;
    assert siteUrl + (mediaUrl + base) == siteUrl + mediaUrl + base;
  }

  /** With a plural name that is one path component, the base path is `img/<name_plural>/thumbs/<W>x<H>`. */
  lemma BasePathShape(namePlural: string, width: nat, height: nat)
    requires namePlural != [] && namePlural[0] != '/' && namePlural[|namePlural| - 1] != '/'
    ensures ThumbBasePath(namePlural, width, height) == "img/" + namePlural + "/thumbs/" + SizeName(width, height)
  {
    var size := SizeName(width, height);
    DecimalShape(width);
    var parts := [namePlural, "thumbs", size];
    assert parts[..2] == [namePlural, "thumbs"] && parts[..2][..1] == [namePlural] && parts[..2][..1][..0] == [];
    assert PathJoinAll("img", [namePlural]) == "img/" + namePlural;
    assert PathJoinAll("img", [namePlural, "thumbs"]) == "img/" + namePlural + "/thumbs";
  }

  lemma DecimalShape(n: nat)
    ensures DecimalString(n)[0] != '/'
  {
    assert IsDigit(DecimalString(n)[0]);
  }

  /** Every thumbnail entry of `cache` holds the URL that its key determines. */
  ghost predicate CacheConsistent(cache: map<string, string>, mediaUrl: string, siteUrl: string)
  {
    forall k :: k in cache && ParseCacheKey(k).Some? ==>
      cache[k] == ThumbUrl(mediaUrl, siteUrl, ParseCacheKey(k).value.0, ParseCacheKey(k).value.1)
  }

  /** Storing a thumbnail's own URL under its own key keeps the cache consistent. */
  lemma StoreKeepsConsistent(cache: map<string, string>, mediaUrl: string, siteUrl: string,
                              base: string, absolute: bool, url: string)
    requires CacheConsistent(cache, mediaUrl, siteUrl)
    requires url == ThumbUrl(mediaUrl, siteUrl, base, absolute)
    ensures CacheConsistent(cache[CacheKey(base, absolute) := url], mediaUrl, siteUrl)
  {
    CacheKeyRoundTrip(base, absolute);
  }

  /** In a consistent cache, the entry for a thumbnail is its URL. */
  lemma ConsistentHit(cache: map<string, string>, mediaUrl: string, siteUrl: string, base: string, absolute: bool)
    requires CacheConsistent(cache, mediaUrl, siteUrl) && CacheKey(base, absolute) in cache
    ensures cache[CacheKey(base, absolute)] == ThumbUrl(mediaUrl, siteUrl, base, absolute)
  {
    CacheKeyRoundTrip(base, absolute);
  }

  /**
   * The memoising thumbnail service: a cache from key to URL and the set of
   * paths that exist on disk, with the `MEDIA_ROOT`, `MEDIA_URL` and `SITE_URL`
   * settings.
   */
  class ThumbStore {
    const mediaRoot: string
    const mediaUrl: string
    const siteUrl: string
    var cache: map<string, string>
    var files: set<string>

    /** Every thumbnail entry of the cache holds the URL that its key determines. */
    ghost predicate Valid()
      reads this
    {
      CacheConsistent(cache, mediaUrl, siteUrl)
    }

    /** A service over an existing filesystem, with an empty cache. */
    constructor (mediaRoot: string, mediaUrl: string, siteUrl: string, files: set<string>)
      ensures Valid()
      ensures this.mediaRoot == mediaRoot && this.mediaUrl == mediaUrl && this.siteUrl == siteUrl
      ensures this.files == files && cache == map[]
    {
      this.mediaRoot := mediaRoot;
      this.mediaUrl := mediaUrl;
      this.siteUrl := siteUrl;
      this.files := files;
      cache := map[];
    }

    /**
     * `get_thumb_url(realm, image, width, height, absolute_url)`: `''` when the
     * image path cannot be resolved; otherwise the thumbnail's URL, whether it
     * comes from the cache or is computed now. On a cache hit nothing changes;
     * on a miss the thumbnail file is made to exist (with its directory) and the
     * URL is stored under the thumbnail's cache key.
     */
    method GetThumbUrl(namePlural: string, imagePath: Option<string>, width: nat, height: nat, absolute: bool)
      returns (url: string)
      requires Valid()
      modifies this
      ensures Valid()
      ensures url == match ThumbFileBase(namePlural, imagePath, width, height)
                     case None => ""
                     case Some(base) => ThumbUrl(mediaUrl, siteUrl, base, absolute)
      ensures imagePath.None? ==> cache == old(cache) && files == old(files)
      ensures imagePath.Some? ==>
                var basePath := ThumbBasePath(namePlural, width, height);
                var base := PathJoin(basePath, LastSegment(imagePath.value));
                var thumbFile := PathJoin(mediaRoot, base);
                if CacheKey(base, absolute) in old(cache) then cache == old(cache) && files == old(files)
                else
                  && cache == old(cache)[CacheKey(base, absolute) := url]
                  && files == old(files) + (if thumbFile in old(files) then {} else {PathJoin(mediaRoot, basePath), thumbFile})
    {
      var basePath := ThumbBasePath(namePlural, width, height);
      if imagePath.None? {
        return "";
      }
      var thumbFileBase := PathJoin(basePath, LastSegment(imagePath.value));
      var key := CacheKey(thumbFileBase, absolute);
      if key in cache {
        ConsistentHit(cache, mediaUrl, siteUrl, thumbFileBase, absolute);
        url := cache[key];
      } else {
        var thumbFile := PathJoin(mediaRoot, thumbFileBase);
        if thumbFile !in files {
          // makedirs (an existing directory is not an error), then open, resize, convert and save the image
          files := files + {PathJoin(mediaRoot, basePath), thumbFile};
        }
        url := PathJoin(mediaUrl, thumbFileBase);
        if absolute {
          url := siteUrl + url;
        }
        assert url == ThumbUrl(mediaUrl, siteUrl, thumbFileBase, absolute);
        StoreKeepsConsistent(cache, mediaUrl, siteUrl, thumbFileBase, absolute, url);
        cache := cache[key := url];
      }
    }

    /** The cache entry under `key` lapses (its 24-hour timeout); the filesystem is untouched. */
    method Expire(key: string)
      requires Valid()
      modifies this
      ensures Valid()
      ensures cache == old(cache) - {key} && files == old(files)
    {
      cache := cache - {key};
    }
  }
}
