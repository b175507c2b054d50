/** The `websites` list of the loaded configuration and the two edits the
    HTTP handlers make to it: `add_website` appends the posted entry,
    `remove_website` keeps the entries whose url differs from the given one. */
module Registry {
  import opened Wrappers
  import opened Schedule

  /** `[w for w in websites if w['url'] != url]`. An entry without a url key
      raises `KeyError` in the comprehension; the handler then answers with an
      error and nothing is saved, which the model returns as `None`. */
  function WithoutUrl(websites: seq<Website>, url: string): (r: Option<seq<Website>>)
    ensures r.Some? ==> |r.value| <= |websites|
  {
    if websites == [] then Some([])
    else if websites[0].url.None? then None
    else
      match WithoutUrl(websites[1..], url)
      case None => None
      case Some(rest) =>
        Some((if websites[0].url == Some(url) then [] else [websites[0]]) + rest)
  }

  /** The filter fails exactly when some entry has no url; otherwise it keeps
      exactly the entries whose url differs from `url`. */
  lemma {:induction false} WithoutUrlMembers(websites: seq<Website>, url: string)
    ensures WithoutUrl(websites, url).None? <==> exists i :: 0 <= i < |websites| && websites[i].url.None?
    ensures WithoutUrl(websites, url).Some? ==>
              forall w :: w in WithoutUrl(websites, url).value <==> w in websites && w.url != Some(url)
  {
    if websites != [] {
      WithoutUrlMembers(websites[1..], url);
      assert forall i :: 1 <= i < |websites| ==> websites[i] == websites[1..][i - 1];
    }
  }

  /** The filter works entry by entry: filtering a concatenation filters each
      part and concatenates the results, so the kept entries stay in order. */
  lemma {:induction false} WithoutUrlAppend(a: seq<Website>, b: seq<Website>, url: string)
    ensures WithoutUrl(a + b, url).Some? <==> WithoutUrl(a, url).Some? && WithoutUrl(b, url).Some?
    ensures WithoutUrl(a + b, url).Some? ==>
              WithoutUrl(a + b, url).value == WithoutUrl(a, url).value + WithoutUrl(b, url).value
  {
    if a == [] {
      assert a + b == b;
    } else {
      assert (a + b)[0] == a[0] && (a + b)[1..] == a[1..] + b;
      WithoutUrlAppend(a[1..], b, url);
    }
  }

  /** Removing a url that no entry has changes nothing. */
  lemma {:induction false} WithoutAbsentUrl(websites: seq<Website>, url: string)
    requires forall i :: 0 <= i < |websites| ==> websites[i].url.Some? && websites[i].url != Some(url)
    ensures WithoutUrl(websites, url) == Some(websites)
  {
    if websites != [] {
      WithoutAbsentUrl(websites[1..], url);
      assert [websites[0]] + websites[1..] == websites;
    }
  }

  /** Removing an entry's url right after adding it gives back the list
      filtered as before: the added entry, and any earlier duplicates, are gone. */
  lemma RemoveUndoesAdd(websites: seq<Website>, website: Website, url: string)
    requires website.url == Some(url)
    ensures WithoutUrl(websites + [website], url) == WithoutUrl(websites, url)
  {
    WithoutUrlAppend(websites, [website], url);
    assert WithoutUrl([website], url) == Some([]) by {
      assert [website][1..] == [];
    }
    if WithoutUrl(websites, url).Some? {
      assert WithoutUrl(websites, url).value + [] == WithoutUrl(websites, url).value;
    }
  }

  /** Filtering twice by the same url is filtering once. */
  lemma {:induction false} WithoutUrlTwice(websites: seq<Website>, url: string)
    requires WithoutUrl(websites, url).Some?
    ensures WithoutUrl(WithoutUrl(websites, url).value, url) == WithoutUrl(websites, url)
  {
    var rest := WithoutUrl(websites, url).value;
    WithoutUrlMembers(websites, url);
    forall i | 0 <= i < |rest|
      ensures rest[i].url.Some? && rest[i].url != Some(url)
    {
      assert rest[i] in rest;
    }
    WithoutAbsentUrl(rest, url);
  }

  /** The configuration as loaded: its `websites` list, which the handlers
      edit in place and then save. */
  class Config {
    var websites: seq<Website>

    /** The configuration `load_config` falls back to: no websites. */
    constructor ()
      ensures websites == []
    {
      websites := [];
    }

    /** `add_website`: log the posted url, then append the entry. There is
        no duplicate check. A posted entry without a url raises `KeyError`
        before the append, so the list stays as it was. */
    method AddWebsite(website: Website) returns (ok: bool)
      modifies this
      ensures ok <==> website.url.Some?
      ensures websites == if ok then old(websites) + [website] else old(websites)
    {
      if website.url.None? {
        return false;
      }
      websites := websites + [website];
      ok := true;
    }

    /** `remove_website`: replace the list by the entries whose url differs. */
    method RemoveWebsite(url: string) returns (ok: bool)
      modifies this
      ensures ok <==> forall i :: 0 <= i < |old(websites)| ==> old(websites)[i].url.Some?
      ensures ok ==> WithoutUrl(old(websites), url) == Some(websites)
      ensures ok ==> forall w :: w in websites ==> w.url != Some(url)
      ensures !ok ==> websites == old(websites)
    {
      var filtered := WithoutUrl(websites, url);
      WithoutUrlMembers(websites, url);
      if filtered.None? {
        return false;
      }
      websites := filtered.value;
      ok := true;
    }
  }
}
