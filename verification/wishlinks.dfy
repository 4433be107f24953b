/**
 * The decisions of cmd/get_wish_links/main.go that are not I/O: the blank
 * root check, the substring filter over the extracted URLs, the order on
 * category keys, and the choice of the URL under the least key.
 */
module WishLinks {
  import opened Wrappers
  import opened Strings
  import opened Strconv
  import Gacha

  // ---------------------------------------------------------------------
  // The root check
  // ---------------------------------------------------------------------

  /** A root that is empty after strings.TrimSpace is refused before any lookup. */
  function RootIsBlank(root: string): (blank: bool)
    ensures blank <==> forall c <- root :: IsSpace(c)
  {
    TrimSpaceEmpty(root);
    TrimSpace(root) == ""
  }

  // ---------------------------------------------------------------------
  // The URL filter
  // ---------------------------------------------------------------------

  /** The URLs that contain `filter`, in their original order. */
  function Keep(urls: seq<string>, filter: string): (r: seq<string>)
    ensures |r| <= |urls|
  {
    if urls == [] then []
    else if Contains(urls[0], filter) then [urls[0]] + Keep(urls[1..], filter)
    else Keep(urls[1..], filter)
  }

  /** Filtering keeps exactly the URLs that contain the filter string. */
  lemma {:induction false} KeepMembers(urls: seq<string>, filter: string, u: string)
    ensures u in Keep(urls, filter) <==> u in urls && Contains(u, filter)
  {
    if urls != [] {
      KeepMembers(urls[1..], filter, u);
      assert urls == [urls[0]] + urls[1..];
    }
  }

  /** Filtering preserves order: it distributes over concatenation. */
  lemma {:induction false} KeepConcat(a: seq<string>, b: seq<string>, filter: string)
    ensures Keep(a + b, filter) == Keep(a, filter) + Keep(b, filter)
  {
    if a != [] {
      assert (a + b)[1..] == a[1..] + b;
      KeepConcat(a[1..], b, filter);
    } else {
      assert a + b == b;
    }
  }

  /**
   * slices.DeleteFunc with the predicate "does not contain the filter": the
   * kept URLs are moved to the front in order, the tail is cleared, and the
   * new length is returned.
   */
  method DeleteNonMatching(a: array<string>, filter: string) returns (n: nat)
    modifies a
    ensures n <= a.Length
    ensures a[..n] == Keep(old(a[..]), filter)
    ensures forall k :: n <= k < a.Length ==> a[k] == ""
  {
    ghost var orig := a[..];
    n := 0;
    var j := 0;
    while j < a.Length
      invariant n <= j <= a.Length
      invariant a[..n] == Keep(orig[..j], filter)
      invariant a[j..] == orig[j..]
    {
      var u := a[j];
      assert u == orig[j];
      KeepConcat(orig[..j], [u], filter);
      assert orig[..j + 1] == orig[..j] + [u];
      if Contains(u, filter) {
        a[n] := u;
        n := n + 1;
      }
      j := j + 1;
    }
    assert orig[..a.Length] == orig;
    var k := n;
    while k < a.Length
      invariant n <= k <= a.Length
      invariant a[..n] == Keep(orig, filter)
      invariant forall m :: n <= m < k ==> a[m] == ""
    {
      a[k] := "";
      k := k + 1;
    }
  }

  // ---------------------------------------------------------------------
  // The order on category keys
  // ---------------------------------------------------------------------

  /**
   * The sort comparator of main: "unknown" after everything, integer keys by
   * value before other keys, other keys by string comparison.
   */
  predicate KeyLess(a: string, b: string)
  {
    if a == Gacha.Unknown then false
    else if b == Gacha.Unknown then true
    else match (Atoi(a), Atoi(b))
      case (Some(x), Some(y)) => x < y
      case (Some(_), None) => true
      case (None, Some(_)) => false
      case (None, None) => Less(a, b)
  }

  /** What the comparator means, class by class. */
  lemma KeyOrder(a: string, b: string)
    ensures a != Gacha.Unknown ==> KeyLess(a, Gacha.Unknown) && !KeyLess(Gacha.Unknown, a)
    ensures Atoi(a).Some? && Atoi(b).Some? ==> (KeyLess(a, b) <==> Atoi(a).value < Atoi(b).value)
    ensures Atoi(a).Some? && Atoi(b).None? && b != Gacha.Unknown ==> KeyLess(a, b) && !KeyLess(b, a)
    ensures Atoi(a).None? && Atoi(b).None? && a != Gacha.Unknown && b != Gacha.Unknown ==>
              (KeyLess(a, b) <==> Less(a, b))
  {
    assert Atoi(Gacha.Unknown).None?;
  }

  lemma KeyLessIrreflexive(a: string)
    ensures !KeyLess(a, a)
  {
    LessIrreflexive(a);
  }

  lemma KeyLessTransitive(a: string, b: string, c: string)
    requires KeyLess(a, b) && KeyLess(b, c)
    ensures KeyLess(a, c)
  {
    if Atoi(a).None? && Atoi(b).None? && Atoi(c).None? && c != Gacha.Unknown {
      LessTransitive(a, b, c);
    }
  }

  /** "2" comes before "11" (by value) although "11" < "2" as text; "unknown" comes last. */
  lemma KeyOrderExample()
    ensures KeyLess("2", "11") && Less("11", "2")
    ensures KeyLess("1", "11") && KeyLess("11", Gacha.Unknown) && KeyLess("1", "abc")
  {
    assert DigitsValue("1") == 1 by { assert "1"[..0] == ""; }
    assert DigitsValue("2") == 2 by { assert "2"[..0] == ""; }
    assert DigitsValue("11") == 11 by { assert "11"[..1] == "1"; }
    assert Atoi("1") == Some(1) && Atoi("2") == Some(2) && Atoi("11") == Some(11);
    assert Atoi("abc").None? by { assert !IsDigit("abc"[0]); }
  }

  /**
   * keys[0] after sorting: a key no other key is less than. The source sorts
   * the keys and reads the first; only that element is observable.
   */
  method LeastKey(keys: set<string>) returns (least: string)
    requires keys != {}
    ensures least in keys
    ensures forall k <- keys :: !KeyLess(k, least)
  {
    least :| least in keys;
    var rest := keys - {least};
    KeyLessIrreflexive(least);
    while rest != {}
      invariant least in keys && rest <= keys
      invariant forall k <- keys - rest :: !KeyLess(k, least)
      decreases |rest|
    {
      var k :| k in rest;
      if KeyLess(k, least) {
        forall k' <- keys - rest ensures !KeyLess(k', k) {
          if KeyLess(k', k) {
            KeyLessTransitive(k', k, least);
          }
        }
        KeyLessIrreflexive(k);
        least := k;
      }
      rest := rest - {k};
    }
  }

  /**
   * The printed URL: the entry under a least key. An empty selection makes
   * `keys[0]` panic in the source, hence the precondition.
   */
  method FirstUrl(selected: map<string, string>) returns (url: string)
    requires |selected| > 0
    ensures exists k <- selected :: url == selected[k] && forall k' <- selected :: !KeyLess(k', k)
  {
    assert selected.Keys != {} by {
      var k :| k in selected;
    }
    var k := LeastKey(selected.Keys);
    url := selected[k];
  }
}
