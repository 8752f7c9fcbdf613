/**
 The three kinds of reference to an image a user may give (src/lib.rs:19-72),
 and the classification `Input::try_from` applies to a string.
 */
module Inputs {

  datatype Input = BaseUrl(url: string) | PageUrl(url: string) | ItemId(id: string)

  /** `AsRef<str>`: the string every variant wraps; wrapping it back in the input's own variant gives the input. */
  function AsRef(input: Input): (s: string)
    ensures input == (match input case BaseUrl(_) => BaseUrl(s) case PageUrl(_) => PageUrl(s) case ItemId(_) => ItemId(s))
  {
    match input
    case BaseUrl(s) => s
    case PageUrl(s) => s
    case ItemId(s) => s
  }

  /** `pattern` occurs in `s` starting at position `i`. */
  predicate OccursAt(s: string, pattern: string, i: nat) {
    i + |pattern| <= |s| && s[i..i + |pattern|] == pattern
  }

  /** `pattern` occurs somewhere in `s`. */
  ghost predicate Occurs(s: string, pattern: string) {
    exists i: nat :: OccursAt(s, pattern, i)
  }

  /** `str::contains`, as a left-to-right scan. */
  predicate Contains(s: string, pattern: string)
    decreases |s|
  {
    if pattern <= s then true
    else if |s| == 0 then false
    else Contains(s[1..], pattern)
  }

  /** The scan finds `pattern` exactly when it occurs. */
  lemma {:induction false} ContainsIffOccurs(s: string, pattern: string)
    ensures Contains(s, pattern) <==> Occurs(s, pattern)
    decreases |s|
  {
    if pattern <= s {
      assert OccursAt(s, pattern, 0);
    } else if |s| == 0 {
    } else {
      ContainsIffOccurs(s[1..], pattern);
      if Occurs(s[1..], pattern) {
        var i: nat :| OccursAt(s[1..], pattern, i);
        assert s[i + 1..i + 1 + |pattern|] == s[1..][i..i + |pattern|];
        assert OccursAt(s, pattern, i + 1);
      }
      if Occurs(s, pattern) {
        var i: nat :| OccursAt(s, pattern, i);
        if i != 0 {
          assert s[1..][i - 1..i - 1 + |pattern|] == s[i..i + |pattern|];
          assert OccursAt(s[1..], pattern, i - 1);
        }
      }
    }
  }

  const ImageHost: string := "ggpht.com"
  const SiteHost: string := "deadseascrolls.org"

  /**
   `Input::try_from`: never fails. The image host wins over the site host;
   anything else is taken to be an item identifier. The string is kept whole.
   */
  function TryFrom(value: string): (r: Input)
    ensures AsRef(r) == value
    ensures r.BaseUrl? <==> Occurs(value, ImageHost)
    ensures r.PageUrl? <==> !Occurs(value, ImageHost) && Occurs(value, SiteHost)
    ensures r.ItemId? <==> !Occurs(value, ImageHost) && !Occurs(value, SiteHost)
  {
    ContainsIffOccurs(value, ImageHost);
    ContainsIffOccurs(value, SiteHost);
    if Contains(value, ImageHost) then BaseUrl(value)
    else if Contains(value, SiteHost) then PageUrl(value)
    else ItemId(value)
  }

  /** Classifying the string an input wraps gives back an input of the same kind, so the classification is stable. */
  lemma TryFromStable(value: string)
    ensures TryFrom(AsRef(TryFrom(value))) == TryFrom(value)
  {
  }
}
