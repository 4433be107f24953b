/**
 * The category selector of internal/gacha/select.go: one pass over the URLs
 * that keeps, per gacha_type, the last URL whose end_id query value is "0".
 *
 * URL parsing (net/url's Parse followed by Query) is a parameter: it maps a
 * URL to its query values, or to None when the URL does not parse.
 */
module Gacha {
  import opened Wrappers

  /** url.Values: each query key with its values in order of appearance. */
  type Values = map<string, seq<string>>

  /** url.Values.Get: the first value of the key, or "" when there is none. */
  function Get(q: Values, key: string): string
  {
    if key in q && |q[key]| > 0 then q[key][0] else ""
  }

  /** The key for URLs without a usable gacha_type. */
  const Unknown: string := "unknown"

  /**
   * The key a parsed URL is filed under, or None when its end_id is not "0".
   */
  function CategoryOf(q: Values): Option<string>
  {
    if Get(q, "end_id") != "0" then None
    else if Get(q, "gacha_type") == "" then Some(Unknown)
    else Some(Get(q, "gacha_type"))
  }

  /** The key a URL is filed under, or None when it is skipped. */
  function Category(u: string, query: string -> Option<Values>): Option<string>
  {
    match query(u)
    case None => None
    case Some(q) => CategoryOf(q)
  }

  /** The map built by the pass over `urls`: each URL overwrites its key's entry. */
  function Selected(urls: seq<string>, query: string -> Option<Values>): map<string, string>
  {
    if urls == [] then map[]
    else
      var m := Selected(urls[..|urls| - 1], query);
      var u := urls[|urls| - 1];
      match Category(u, query)
      case None => m
      case Some(k) => m[k := u]
  }

  /** OnePerTypeWithEndIdZero: the selection pass. */
  method OnePerTypeWithEndIdZero(urls: seq<string>, query: string -> Option<Values>) returns (out: map<string, string>)
    ensures out == Selected(urls, query)
  {
    out := map[];
    for n := 0 to |urls|
      invariant out == Selected(urls[..n], query)
    {
      assert urls[..n + 1][..n] == urls[..n];
      var u := urls[n];
      var parsed := query(u);
      if parsed.None? {
        continue;
      }
      var q := parsed.value;
      if Get(q, "end_id") != "0" {
        continue;
      }
      var gt := Get(q, "gacha_type");
      if gt == "" {
        gt := Unknown;
      }
      out := out[gt := u];
    }
    assert urls[..|urls|] == urls;
  }

  // ---------------------------------------------------------------------
  // What the selection promises
  // ---------------------------------------------------------------------

  /** The filter: a URL is kept only with end_id exactly "0", under its gacha_type or "unknown". */
  lemma CategoryFilter(q: Values)
    ensures CategoryOf(q).Some? <==> "end_id" in q && |q["end_id"]| > 0 && q["end_id"][0] == "0"
    ensures CategoryOf(q).Some? && ("gacha_type" !in q || q["gacha_type"] == [] || q["gacha_type"][0] == "") ==>
              CategoryOf(q) == Some(Unknown)
    ensures CategoryOf(q).Some? && "gacha_type" in q && q["gacha_type"] != [] && q["gacha_type"][0] != "" ==>
              CategoryOf(q) == Some(q["gacha_type"][0])
    ensures CategoryOf(q).Some? ==> CategoryOf(q).value != ""
  {
  }

  /** The page parameter never affects inclusion or the key. */
  lemma PageIrrelevant(q: Values, pages: seq<string>)
    ensures CategoryOf(q["page" := pages]) == CategoryOf(q)
    ensures CategoryOf(q - {"page"}) == CategoryOf(q)
  {
    assert Get(q["page" := pages], "end_id") == Get(q, "end_id");
    assert Get(q["page" := pages], "gacha_type") == Get(q, "gacha_type");
    assert Get(q - {"page"}, "end_id") == Get(q, "end_id");
    assert Get(q - {"page"}, "gacha_type") == Get(q, "gacha_type");
  }

  /** Appending a URL changes at most the entry for its own key. */
  lemma SelectedAppend(urls: seq<string>, u: string, query: string -> Option<Values>)
    ensures Category(u, query).None? ==> Selected(urls + [u], query) == Selected(urls, query)
    ensures Category(u, query).Some? ==>
              Selected(urls + [u], query) == Selected(urls, query)[Category(u, query).value := u]
  {
    assert (urls + [u])[..|urls|] == urls;
  }

  /** A key is present exactly when some URL is filed under it; unparseable URLs give nothing. */
  lemma {:induction false} SelectedKeys(urls: seq<string>, query: string -> Option<Values>, k: string)
    ensures k in Selected(urls, query) <==> exists i :: 0 <= i < |urls| && Category(urls[i], query) == Some(k)
  {
    if urls != [] {
      var init := urls[..|urls| - 1];
      SelectedKeys(init, query, k);
      if exists i :: 0 <= i < |urls| && Category(urls[i], query) == Some(k) {
        var i :| 0 <= i < |urls| && Category(urls[i], query) == Some(k);
        if i < |urls| - 1 {
          assert init[i] == urls[i];
        }
      }
      assert forall i :: 0 <= i < |init| ==> init[i] == urls[i];
    }
  }

  /**
   * Last wins: the entry for a key is the last URL in input order filed under
   * that key, so it is an input URL with end_id "0".
   */
  lemma {:induction false} SelectedLastWins(urls: seq<string>, query: string -> Option<Values>, k: string)
    requires k in Selected(urls, query)
    ensures exists i :: 0 <= i < |urls| && urls[i] == Selected(urls, query)[k] &&
              Category(urls[i], query) == Some(k) &&
              forall j :: i < j < |urls| ==> Category(urls[j], query) != Some(k)
  {
    var init := urls[..|urls| - 1];
    var u := urls[|urls| - 1];
    if Category(u, query) == Some(k) {
      assert Selected(urls, query)[k] == u;
    } else {
      SelectedLastWins(init, query, k);
      var i :| 0 <= i < |init| && init[i] == Selected(init, query)[k] &&
              Category(init[i], query) == Some(k) &&
              forall j :: i < j < |init| ==> Category(init[j], query) != Some(k);
      assert urls[i] == init[i];
      forall j | i < j < |urls| ensures Category(urls[j], query) != Some(k) {
        if j < |init| {
          assert urls[j] == init[j];
        }
      }
    }
  }

  /** Every stored URL is an input URL that parses with end_id "0" and carries its key. */
  lemma SelectedValuesPass(urls: seq<string>, query: string -> Option<Values>)
    ensures forall k <- Selected(urls, query) ::
              Selected(urls, query)[k] in urls &&
              query(Selected(urls, query)[k]).Some? &&
              Get(query(Selected(urls, query)[k]).value, "end_id") == "0" &&
              Category(Selected(urls, query)[k], query) == Some(k)
  {
    forall k <- Selected(urls, query)
      ensures Selected(urls, query)[k] in urls && Category(Selected(urls, query)[k], query) == Some(k)
    {
      SelectedLastWins(urls, query, k);
    }
  }
}
