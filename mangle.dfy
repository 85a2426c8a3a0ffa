/**
 * `url_mangle(url)` (apps/utils.py:324-340): a URL longer than 45 characters
 * loses its query and fragment, and a path with anything but slashes in it is
 * replaced by `<...>` followed by its last segment. The string-level parsing
 * and reassembly (`urlsplit`, `urlunsplit`) are parameters.
 */
module UrlMangle {
  import opened Text

  /** The five components of `urlsplit`. */
  datatype SplitUrl = SplitUrl(scheme: string, netloc: string, path: string, query: string, fragment: string)

  /** URLs up to this length are left alone. */
  const MaxLength: nat := 45

  /** `s.strip('/')`. */
  function StripSlashes(s: string): (r: string)
    ensures |r| <= |s|
  {
    if s != [] && s[0] == '/' then StripSlashes(s[1..])
    else if s != [] && s[|s| - 1] == '/' then StripSlashes(s[..|s| - 1])
    else s
  }

  /** `s.strip('/')` is non-empty exactly when `s` has a character other than `/`. */
  lemma {:induction false} StripSlashesEmpty(s: string)
    ensures StripSlashes(s) != [] <==> exists i :: 0 <= i < |s| && s[i] != '/'
  {
    if s != [] && s[0] == '/' {
      StripSlashesEmpty(s[1..]);
      assert forall i :: 0 < i < |s| ==> s[i] == s[1..][i - 1];
    } else if s != [] && s[|s| - 1] == '/' {
      StripSlashesEmpty(s[..|s| - 1]);
      assert forall i :: 0 <= i < |s| - 1 ==> s[i] == s[..|s| - 1][i];
    } else if s != [] {
      assert s[0] != '/';
    }
  }

  /** The component edits of `url_mangle` on a long URL. */
  function MangleParts(u: SplitUrl): SplitUrl
  {
    SplitUrl(u.scheme, u.netloc,
             if StripSlashes(u.path) != [] then "<...>" + LastSegment(u.path) else u.path,
             "", "")
  }

  /** `url_mangle(url)`, with `urlsplit` and `urlunsplit` given. */
  function Mangle(url: string, split: string -> SplitUrl, unsplit: SplitUrl -> string): (r: string)
    ensures |url| <= MaxLength ==> r == url
  {
    if |url| <= MaxLength then url else unsplit(MangleParts(split(url)))
  }

  /**
   * What mangling does to the components of a long URL: scheme and network
   * location are kept, query and fragment are emptied, a path made only of
   * slashes (or empty) is kept, and any other path becomes `<...>` followed by
   * the text after its last `/` (all of it when there is no `/`, nothing when
   * it ends in `/`).
   */
  lemma MangledComponents(url: string, split: string -> SplitUrl, unsplit: SplitUrl -> string)
    requires |url| > MaxLength
    ensures var u, m := split(url), MangleParts(split(url));
      && Mangle(url, split, unsplit) == unsplit(m)
      && m.scheme == u.scheme && m.netloc == u.netloc
      && m.query == "" && m.fragment == ""
      && ((forall i :: 0 <= i < |u.path| ==> u.path[i] == '/') ==> m.path == u.path)
      && ((exists i :: 0 <= i < |u.path| && u.path[i] != '/') ==>
            && |m.path| >= 5 && m.path[..5] == "<...>"
            && var tail := m.path[5..];
               && '/' !in tail
               && |tail| <= |u.path|
               && tail == u.path[|u.path| - |tail|..]
               && (|tail| == |u.path| || u.path[|u.path| - |tail| - 1] == '/'))
  {
    StripSlashesEmpty(split(url).path);
    LastSegmentTail(split(url).path);
  }
}
