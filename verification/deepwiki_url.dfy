/** `DeepWikiParser.github_to_deepwiki_url`: a GitHub repository address turned into the
    address of its DeepWiki page. */
module DeepWikiUrl {
  import opened Options
  import opened Strings

  const GithubDomain := "github.com"
  const DeepwikiDomain := "deepwiki.com"

  /** The text without one trailing `/`, if it ends in one. */
  function DropTrailingSlash(s: string): (r: string)
    ensures s == r + "/" || s == r
    ensures s == r <==> s == [] || s[|s| - 1] != '/'
  {
    if s != [] && s[|s| - 1] == '/' then s[..|s| - 1] else s
  }

  /** `None` for a missing or empty address; otherwise the address stripped of surrounding white
      space and of at most one trailing `/`, with every `github.com` replaced by `deepwiki.com`. */
  function GithubToDeepwikiUrl(url: Option<string>): (r: Option<string>)
    ensures r.None? <==> url.None? || url.value == []
  {
    match url
    case None => None
    case Some(u) =>
      if u == [] then None
      else Some(ReplaceAll(DropTrailingSlash(Strip(u)), GithubDomain, DeepwikiDomain))
  }

  /** No `github.com` is left in a converted address: `deepwiki.com` cannot combine with the
      text around it into a new one. */
  lemma NoGithubLeft(u: string)
    requires u != []
    ensures !Contains(GithubToDeepwikiUrl(Some(u)).value, GithubDomain)
  {
    var s := DropTrailingSlash(Strip(u));
    var r := GithubToDeepwikiUrl(Some(u)).value;
    assert GithubDomain[0] !in DeepwikiDomain && DeepwikiDomain[0] !in GithubDomain;
    forall i | 0 <= i <= |r| - |GithubDomain| ensures !OccursAt(r, GithubDomain, i) {
      ReplaceAllRemoves(s, GithubDomain, DeepwikiDomain, i);
    }
  }

  /** An address without `github.com` is only trimmed: white space around it and one trailing
      `/` are removed, nothing else changes. */
  lemma OtherAddressesTrimmed(u: string)
    requires u != []
    requires !Contains(DropTrailingSlash(Strip(u)), GithubDomain)
    ensures GithubToDeepwikiUrl(Some(u)) == Some(DropTrailingSlash(Strip(u)))
  {
    ReplaceAllAbsent(DropTrailingSlash(Strip(u)), GithubDomain, DeepwikiDomain);
  }

  /** An address of white space only is not rejected: it converts to the empty address. */
  lemma BlankAddress(u: string)
    requires u != [] && AllSpace(u)
    ensures GithubToDeepwikiUrl(Some(u)) == Some("")
  {
    StripEmpty(u);
  }

  /** Only one trailing `/` is removed. */
  lemma OneSlashOnly(a: string)
    requires a != [] && !IsSpace(a[0]) && !IsSpace(a[|a| - 1])
    requires !Contains(a, GithubDomain) && !Contains(a + "/", GithubDomain)
    ensures GithubToDeepwikiUrl(Some(a + "//")) == Some(a + "/")
  {
    StripOf([], a + "//", []);
    assert [] + (a + "//") + [] == a + "//";
    assert DropTrailingSlash(a + "//") == a + "/";
    OtherAddressesTrimmed(a + "//");
  }

  const Scheme := "https://"

  /** An address without surrounding white space that ends in one `/` loses that `/`. */
  lemma TrimmedAddress(a: string)
    requires a != [] && !IsSpace(a[0])
    ensures DropTrailingSlash(Strip(a + "/")) == a
  {
    StripOf([], a + "/", []);
    assert [] + (a + "/") + [] == a + "/";
    assert (a + "/")[..|a|] == a;
  }

  /** A repository address with a trailing slash becomes the DeepWiki page of the same path. */
  lemma RepositoryAddress(path: string)
    requires !Contains("/" + path, GithubDomain)
    ensures GithubToDeepwikiUrl(Some(Scheme + GithubDomain + "/" + path + "/")) ==
            Some(Scheme + DeepwikiDomain + "/" + path)
  {
    var rest := "/" + path;
    var a := Scheme + (GithubDomain + rest);
    AppendAssoc(Scheme, GithubDomain, rest);
    AppendAssoc(Scheme + GithubDomain, "/", path);
    assert Scheme + GithubDomain + "/" + path + "/" == a + "/";
    assert a[0] == 'h';
    TrimmedAddress(a);
    ReplaceSkips(Scheme, GithubDomain + rest, GithubDomain, DeepwikiDomain);
    ReplaceAtStart(rest, GithubDomain, DeepwikiDomain);
    ReplaceAllAbsent(rest, GithubDomain, DeepwikiDomain);
    AppendAssoc(Scheme, DeepwikiDomain, rest);
    AppendAssoc(Scheme + DeepwikiDomain, "/", path);
  }
}
