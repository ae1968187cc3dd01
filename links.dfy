/** `_FindLinksParser`: collects the links of an HTML directory index. */
module Links {
  import opened Text

  datatype Attr = Attr(name: string, value: string)

  /** One start tag as `HTMLParser` reports it to `handle_starttag`. */
  datatype StartTag = StartTag(tag: string, attrs: seq<Attr>)

  /** Navigation and hidden entries of an index page, which are not listed. */
  predicate IsNavigation(v: string) {
    StartsWith(v, "?") || StartsWith(v, "/") || StartsWith(v, ".") || StartsWith(v, "__")
  }

  /** The attribute at `k` is an `href` whose value is kept. */
  predicate KeptAt(attrs: seq<Attr>, k: int)
    requires 0 <= k < |attrs|
  {
    attrs[k].name == "href" && !IsNavigation(attrs[k].value)
  }

  /** The unquoted values of the kept `href` attributes, in order. */
  function HrefLinks(attrs: seq<Attr>, unquote: string -> string): seq<string>
    decreases |attrs|
  {
    if |attrs| == 0 then []
    else
      var last := attrs[|attrs| - 1];
      HrefLinks(attrs[..|attrs| - 1], unquote)
        + (if KeptAt(attrs, |attrs| - 1) then [unquote(last.value)] else [])
  }

  /** What one start tag adds to the links: only `<a>` tags add anything. */
  function TagLinks(t: StartTag, unquote: string -> string): seq<string> {
    if t.tag == "a" then HrefLinks(t.attrs, unquote) else []
  }

  /** The links of a whole page, tag after tag. */
  function PageLinks(tags: seq<StartTag>, unquote: string -> string): seq<string>
    decreases |tags|
  {
    if |tags| == 0 then []
    else PageLinks(tags[..|tags| - 1], unquote) + TagLinks(tags[|tags| - 1], unquote)
  }

  /**
   * A value is among the links of an attribute list exactly when some `href`
   * attribute that is not a navigation entry unquotes to it.
   */
  lemma {:induction false} HrefLinksMembership(attrs: seq<Attr>, unquote: string -> string, x: string)
    ensures x in HrefLinks(attrs, unquote)
        <==> exists k :: 0 <= k < |attrs| && KeptAt(attrs, k) && unquote(attrs[k].value) == x
  {
    if |attrs| > 0 {
      var init := attrs[..|attrs| - 1];
      HrefLinksMembership(init, unquote, x);
      assert forall k :: 0 <= k < |init| ==> (KeptAt(init, k) <==> KeptAt(attrs, k)) && init[k] == attrs[k];
      if x in HrefLinks(init, unquote) {
        var k :| 0 <= k < |init| && KeptAt(init, k) && unquote(init[k].value) == x;
        assert KeptAt(attrs, k) && unquote(attrs[k].value) == x;
      }
    }
  }

  /**
   * A value is among the links of a page exactly when some `<a>` tag of the
   * page carries a kept `href` that unquotes to it; other tags add nothing.
   */
  lemma {:induction false} PageLinksMembership(tags: seq<StartTag>, unquote: string -> string, x: string)
    ensures x in PageLinks(tags, unquote)
        <==> exists i, k :: 0 <= i < |tags| && tags[i].tag == "a" && 0 <= k < |tags[i].attrs|
                            && KeptAt(tags[i].attrs, k) && unquote(tags[i].attrs[k].value) == x
  {
    if |tags| > 0 {
      var init, last := tags[..|tags| - 1], tags[|tags| - 1];
      PageLinksMembership(init, unquote, x);
      HrefLinksMembership(last.attrs, unquote, x);
      assert forall i :: 0 <= i < |init| ==> init[i] == tags[i];
      if x in PageLinks(init, unquote) {
        var i, k :| 0 <= i < |init| && init[i].tag == "a" && 0 <= k < |init[i].attrs|
                    && KeptAt(init[i].attrs, k) && unquote(init[i].attrs[k].value) == x;
        assert tags[i] == init[i];
      }
    }
  }

  /** The parser: `links` grows as `HTMLParser.feed` reports start tags. */
  class FindLinksParser {
    var links: seq<string>
    const unquote: string -> string

    /** `_FindLinksParser()`; `unquote` is `urllib.parse.unquote`. */
    constructor (unquote: string -> string)
      ensures links == [] && this.unquote == unquote
    {
      links := [];
      this.unquote := unquote;
    }

    /** `handle_starttag`: appends the kept `href` values of an `<a>` tag. */
    method HandleStartTag(tag: string, attrs: seq<Attr>)
      modifies this
      ensures links == old(links) + TagLinks(StartTag(tag, attrs), unquote)
    {
      if tag == "a" {
        for i := 0 to |attrs|
          invariant links == old(links) + HrefLinks(attrs[..i], unquote)
        {
          assert attrs[..i + 1][..i] == attrs[..i];
          var name, value := attrs[i].name, attrs[i].value;
          if name == "href" {
            if StartsWith(value, "?") || StartsWith(value, "/")
               || StartsWith(value, ".") || StartsWith(value, "__") {
              continue;
            }
            links := links + [unquote(value)];
          }
        }
        assert attrs[..|attrs|] == attrs;
      }
    }

    /** `feed(text)`, with the page already cut into its start tags. */
    method Feed(tags: seq<StartTag>)
      modifies this
      ensures links == old(links) + PageLinks(tags, unquote)
    {
      for i := 0 to |tags|
        invariant links == old(links) + PageLinks(tags[..i], unquote)
      {
        assert tags[..i + 1][..i] == tags[..i];
        HandleStartTag(tags[i].tag, tags[i].attrs);
      }
      assert tags[..|tags|] == tags;
    }
  }
}
