/** `_normalize_url`: the mirror address the user types becomes the base of
    every probe URL. Both removals use `str.replace`, so they remove every
    occurrence, not only the leading `www.` or the trailing `index.html`. */
module Endpoint {
  import opened Strings

  const Https := "https://"
  const Www := "www."
  const IndexHtml := "index.html"

  /** Step 1: an address starting with `www.` loses every `www.`. */
  function DropWww(url: string): string
  {
    if StartsWith(url, Www) then ReplaceAll(url, Www, "") else url
  }

  /** Step 2: the scheme is added unless already there. */
  function AddScheme(url: string): (r: string)
    ensures StartsWith(r, Https)
  {
    if StartsWith(url, Https) then url else Https + url
  }

  /** Step 3: an address ending in `index.html` loses every `index.html`. */
  function DropIndex(url: string): (r: string)
    requires StartsWith(url, Https)
    ensures StartsWith(r, Https)
  {
    if EndsWith(url, IndexHtml) then
      SchemeSurvivesRemoval(url[|Https|..]);
      assert url == Https + url[|Https|..];
      ReplaceAll(url, IndexHtml, "")
    else url
  }

  function NormalizeUrl(url: string): (r: string)
    ensures StartsWith(r, Https)
    ensures StartsWith(url, Https) && !EndsWith(url, IndexHtml) ==> r == url
  {
    assert StartsWith(url, Https) ==> !StartsWith(url, Www) by {
      assert StartsWith(url, Https) ==> url[0] == 'h';
    }
    DropIndex(AddScheme(DropWww(url)))
  }

  /** No occurrence of `index.html` can start inside `https://` (it has no `i`),
      so removing them keeps the scheme. */
  lemma SchemeSurvivesRemoval(t: string)
    ensures ReplaceAll(Https + t, IndexHtml, "") == Https + ReplaceAll(t, IndexHtml, "")
  {
    ReplaceAllAbsentPrefix(Https, t, IndexHtml, "");
  }

  /** Adding the scheme cannot create a trailing `index.html`. */
  lemma SchemeAddsNoIndex(url: string)
    ensures EndsWith(Https + url, IndexHtml) ==> EndsWith(url, IndexHtml)
  {
    var b := Https + url;
    if |url| >= |IndexHtml| {
      assert b[|b| - |IndexHtml|..] == url[|url| - |IndexHtml|..];
    } else if |b| >= |IndexHtml| {
      var tail := b[|b| - |IndexHtml|..];
      assert tail[7 - (|b| - |IndexHtml|)] == '/';
      assert '/' !in IndexHtml;
    }
  }

  /** A bare host name only gains the scheme. */
  lemma BareHostGainsScheme(url: string)
    requires !StartsWith(url, Www) && !StartsWith(url, Https) && !EndsWith(url, IndexHtml)
    ensures NormalizeUrl(url) == Https + url
  {
    SchemeAddsNoIndex(url);
  }

  /** No occurrence of `www.` starts anywhere in `host`. */
  predicate NoWww(host: string)
  {
    forall k :: 0 <= k < |host| ==> !StartsWith(host[k..], Www)
  }

  /** `www.` followed by a host holding no other `www.` loses the `www.`
      before the scheme is added. */
  lemma WwwHostGainsScheme(host: string)
    requires NoWww(host) && !StartsWith(host, Https) && !EndsWith(host, IndexHtml)
    ensures NormalizeUrl(Www + host) == Https + host
  {
    ReplaceAllAtFront(host, Www, "");
    forall k | 0 <= k < |host| ensures !StartsWith((host + "")[k..], Www) {
      assert (host + "")[k..] == host[k..];
    }
    ReplaceAllKeepsPrefix(host, "", Www, "");
    assert host + "" == host;
    assert (Www + host)[..|Www|] == Www;
    assert DropWww(Www + host) == host;
    assert AddScheme(host) == Https + host;
    SchemeAddsNoIndex(host);
  }

  /** `www.example.com` becomes `https://example.com`. */
  lemma WwwExample()
    ensures NormalizeUrl(Www + "example.com") == Https + "example.com"
  {
    var host := "example.com";
    forall k | 0 <= k < |host| ensures !StartsWith(host[k..], Www) {
      assert host[k..][0] == host[k] != 'w';
    }
    assert !StartsWith(host, Https) by { assert host[0] != 'h'; }
    assert !EndsWith(host, IndexHtml) by { assert host[|host| - 1] != 'l'; }
    WwwHostGainsScheme(host);
  }

  /** Every `www.` is removed, not only the leading one:
      `www.a.www.b` becomes `https://a.b`. */
  lemma EveryWwwRemoved()
    ensures NormalizeUrl(Www + "a." + Www + "b") == Https + "a.b"
  {
    var u := Www + ("a." + (Www + "b"));
    assert u == Www + "a." + Www + "b";
    ReplaceAllAtFront("a." + (Www + "b"), Www, "");
    ReplaceAllAbsentPrefix("a.", Www + "b", Www, "");
    ReplaceAllAtFront("b", Www, "");
    ReplaceAllAbsentPrefix("b", "", Www, "");
    assert "b" + "" == "b";
    assert u[..|Www|] == Www;
    assert DropWww(u) == "a.b";
    assert AddScheme("a.b") == Https + "a.b";
    SchemeAddsNoIndex("a.b");
  }

  /** Removing every `index.html` from `index.htmindex.htmllindex.html`
      (the first nine characters of `index.html`, `index.html`, its last
      character, `index.html`) leaves `index.html`. */
  lemma RemovalJoins()
    ensures ReplaceAll(IndexHtml[..9] + (IndexHtml + (IndexHtml[9..] + IndexHtml)), IndexHtml, "")
            == IndexHtml
  {
    assert IndexHtml[0] !in IndexHtml[1..];
    RemovalRejoins(IndexHtml);
  }

  lemma KeepsSchemePrefix(t: string)
    ensures DropWww(Https + t) == Https + t && AddScheme(Https + t) == Https + t
  {
    var u := Https + t;
    assert u[0] != 'w';
    assert u[..|Https|] == Https;
  }

  lemma IndexStaysAtEnd(t: string)
    requires EndsWith(t, IndexHtml)
    ensures EndsWith(Https + t, IndexHtml)
  {
    var u := Https + t;
    assert u[|u| - |IndexHtml|..] == t[|t| - |IndexHtml|..];
  }

  lemma DropIndexAfterScheme(t: string)
    requires EndsWith(Https + t, IndexHtml)
    ensures DropIndex(Https + t) == Https + ReplaceAll(t, IndexHtml, "")
  {
    SchemeSurvivesRemoval(t);
  }

  /** An address with the scheme that ends in `index.html` loses every
      `index.html` after the scheme. */
  lemma SchemeAndIndex(t: string)
    requires EndsWith(t, IndexHtml)
    ensures NormalizeUrl(Https + t) == Https + ReplaceAll(t, IndexHtml, "")
  {
    KeepsSchemePrefix(t);
    IndexStaysAtEnd(t);
    DropIndexAfterScheme(t);
  }

  /** Normalising twice can differ from normalising once: for
      `https://index.htmindex.htmllindex.html` the first pass gives
      `https://index.html` and the second `https://`. */
  lemma NotIdempotent()
    ensures var u := Https + (IndexHtml[..9] + (IndexHtml + (IndexHtml[9..] + IndexHtml)));
            NormalizeUrl(u) == Https + IndexHtml && NormalizeUrl(NormalizeUrl(u)) == Https
  {
    var t := IndexHtml[..9] + (IndexHtml + (IndexHtml[9..] + IndexHtml));
    assert EndsWith(t, IndexHtml) by { assert t[|t| - |IndexHtml|..] == IndexHtml; }
    SchemeAndIndex(t);
    RemovalJoins();
    assert EndsWith(IndexHtml, IndexHtml) by { assert IndexHtml[0..] == IndexHtml; }
    SchemeAndIndex(IndexHtml);
    ReplaceAllAtFront("", IndexHtml, "");
    assert IndexHtml + "" == IndexHtml;
    assert Https + "" == Https;
  }
}
