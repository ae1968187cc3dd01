/**
 * `_search`: keep the paths whose info mentions every search string, in the
 * text made of the tags, the title and the path's own names.
 */
module Search {
  import opened Results
  import opened Text
  import opened Formats

  /** The keyword arguments of `_search`; `Defaults` are the source's. */
  datatype Options = Options(caseSensitive: bool, inTag: bool, inTitle: bool, inName: bool)

  const Defaults: Options := Options(false, true, true, true)

  /** Every item of a JSON list is a string. */
  predicate AllStrings(items: seq<Value>) {
    forall k :: 0 <= k < |items| ==> items[k].Str?
  }

  /**
   * `" ".join(info.get("tags", []))`: a missing key joins nothing, a string
   * is joined character by character, a list of strings is joined, and
   * anything else raises `TypeError`.
   */
  function TagsText(i: Info): (r: Result<string, Error>)
    ensures r.Err? <==> "tags" in i && !(i["tags"].Str? || (i["tags"].Arr? && AllStrings(i["tags"].items)))
    ensures "tags" !in i ==> r == Ok("")
  {
    if "tags" !in i then Ok("")
    else match i["tags"]
      case Str(s) => Ok(Join(Chars(s), " "))
      case Arr(items) =>
        if AllStrings(items) then Ok(Join(seq(|items|, k requires 0 <= k < |items| => items[k].s), " "))
        else Err(TypeError)
      case Opaque(_) => Err(TypeError)
  }

  /** `info.get("title", "")`, which `target +=` accepts only when it is a string. */
  function TitleText(i: Info): (r: Result<string, Error>)
    ensures r.Err? <==> "title" in i && !i["title"].Str?
    ensures r.Ok? && "title" in i ==> r.value == i["title"].s
  {
    if "title" !in i then Ok("")
    else match i["title"]
      case Str(s) => Ok(s)
      case _ => Err(TypeError)
  }

  /** A search string as compared: lower-cased unless the search is case sensitive. */
  function Folded(s: string, o: Options): (r: string)
    ensures |r| == |s|
  {
    if o.caseSensitive then s else Lower(s)
  }

  /** The text `_search` looks in for one file: tags, then title, then names, each only if its flag is set. */
  function Haystack(path: seq<string>, i: Info, o: Options): (r: Result<string, Error>)
    ensures r.Err? <==> (o.inTag && TagsText(i).Err?) || (o.inTitle && TitleText(i).Err?)
    ensures r.Ok? ==> |r.value| == (if o.inTag then |TagsText(i).value| else 0)
                                   + (if o.inTitle then |TitleText(i).value| else 0)
                                   + (if o.inName then |Join(path, " ")| else 0)
  {
    var tags :- if o.inTag then TagsText(i) else Ok("");
    var title :- if o.inTitle then TitleText(i) else Ok("");
    var name := if o.inName then Join(path, " ") else "";
    Ok(Folded(tags + title + name, o))
  }

  /** Every search string occurs in the text. */
  predicate MatchesAll(target: string, sstrings: seq<string>, o: Options) {
    forall k :: 0 <= k < |sstrings| ==> Contains(target, Folded(sstrings[k], o))
  }

  /** The paths of an info listing, in order. */
  function Keys(si: seq<(seq<string>, Info)>): (r: seq<seq<string>>)
    ensures |r| == |si| && forall k :: 0 <= k < |si| ==> r[k] == si[k].0
  {
    seq(|si|, k requires 0 <= k < |si| => si[k].0)
  }

  /**
   * What `_search(si, sstrings, ...)` returns for the listing `si` (in the
   * dictionary's order): the matching paths in order, or the first
   * exception a file's info raises.
   */
  function SearchSpec(si: seq<(seq<string>, Info)>, sstrings: seq<string>, o: Options): Result<seq<seq<string>>, Error>
    decreases |si|
  {
    if |si| == 0 then Ok([])
    else
      var before :- SearchSpec(si[..|si| - 1], sstrings, o);
      var last := si[|si| - 1];
      var target :- Haystack(last.0, last.1, o);
      Ok(if MatchesAll(target, sstrings, o) then before + [last.0] else before)
  }

  /** `_search`: a loop over the files, with an inner loop over the search strings that stops at the first miss. */
  method Search(si: seq<(seq<string>, Info)>, sstrings: seq<string>, o: Options) returns (r: Result<seq<seq<string>>, Error>)
    ensures r == SearchSpec(si, sstrings, o)
  {
    var found: seq<seq<string>> := [];
    for n := 0 to |si|
      invariant SearchSpec(si[..n], sstrings, o) == Ok(found)
    {
      assert si[..n + 1][..n] == si[..n];
      var path := si[n].0;
      var target := Haystack(path, si[n].1, o);
      if target.Err? {
        ErrorPersists(si, n + 1, sstrings, o);
        return Err(target.error);
      }
      var matched := true;
      for k := 0 to |sstrings|
        invariant matched <==> forall j :: 0 <= j < k ==> Contains(target.value, Folded(sstrings[j], o))
      {
        var s := sstrings[k];
        if !o.caseSensitive {
          s := Lower(s);
        }
        if !Contains(target.value, s) {
          matched := false;
          break;
        }
      }
      if matched {
        found := found + [path];
      }
    }
    assert si[..|si|] == si;
    return Ok(found);
  }

  /** Once a prefix of the listing raises, the whole search raises the same exception. */
  lemma {:induction false} ErrorPersists(si: seq<(seq<string>, Info)>, m: int, sstrings: seq<string>, o: Options)
    requires 0 <= m <= |si| && SearchSpec(si[..m], sstrings, o).Err?
    ensures SearchSpec(si, sstrings, o) == SearchSpec(si[..m], sstrings, o)
    decreases |si|
  {
    if m < |si| {
      var init := si[..|si| - 1];
      assert init[..m] == si[..m];
      ErrorPersists(init, m, sstrings, o);
    } else {
      assert si[..m] == si;
    }
  }

  /** A search raises exactly when some file's info has a tags or title field of the wrong shape. */
  lemma {:induction false} SearchFailsOnBadField(si: seq<(seq<string>, Info)>, sstrings: seq<string>, o: Options)
    ensures SearchSpec(si, sstrings, o).Err? <==> exists k :: 0 <= k < |si| && Haystack(si[k].0, si[k].1, o).Err?
    decreases |si|
  {
    if |si| > 0 {
      var init, last := si[..|si| - 1], si[|si| - 1];
      SearchFailsOnBadField(init, sstrings, o);
      if SearchSpec(init, sstrings, o).Err? {
        var k :| 0 <= k < |init| && Haystack(init[k].0, init[k].1, o).Err?;
        assert si[k] == init[k];
      } else if Haystack(last.0, last.1, o).Err? {
        assert Haystack(si[|si| - 1].0, si[|si| - 1].1, o).Err?;
      } else {
        assert SearchSpec(si, sstrings, o).Ok?;
        forall k | 0 <= k < |si| ensures Haystack(si[k].0, si[k].1, o).Ok? {
          if k < |init| {
            assert si[k] == init[k];
          }
        }
      }
    }
  }

  /**
   * A path is found exactly when it is the path of some file whose text
   * contains every search string.
   */
  lemma {:induction false} SearchMembership(si: seq<(seq<string>, Info)>, sstrings: seq<string>, o: Options)
    requires SearchSpec(si, sstrings, o).Ok?
    ensures forall p :: p in SearchSpec(si, sstrings, o).value <==>
              exists k :: 0 <= k < |si| && si[k].0 == p && Haystack(si[k].0, si[k].1, o).Ok?
                && MatchesAll(Haystack(si[k].0, si[k].1, o).value, sstrings, o)
    decreases |si|
  {
    SearchFailsOnBadField(si, sstrings, o);
    if |si| > 0 {
      var init := si[..|si| - 1];
      SearchMembership(init, sstrings, o);
      assert forall k :: 0 <= k < |init| ==> init[k] == si[k];
      forall p | exists k :: 0 <= k < |si| && si[k].0 == p && MatchesAll(Haystack(si[k].0, si[k].1, o).value, sstrings, o)
        ensures p in SearchSpec(si, sstrings, o).value
      {
        var k :| 0 <= k < |si| && si[k].0 == p && MatchesAll(Haystack(si[k].0, si[k].1, o).value, sstrings, o);
        if k < |init| {
          assert init[k].0 == p && MatchesAll(Haystack(init[k].0, init[k].1, o).value, sstrings, o);
        }
      }
    }
  }

  /** `found` is `keys` with some entries left out, in their original order, as witnessed by `idx`. */
  predicate SubsequenceBy(found: seq<seq<string>>, keys: seq<seq<string>>, idx: seq<int>) {
    && |idx| == |found|
    && (forall i :: 0 <= i < |idx| ==> 0 <= idx[i] < |keys| && keys[idx[i]] == found[i])
    && (forall i, j :: 0 <= i < j < |idx| ==> idx[i] < idx[j])
  }

  /** The result keeps the input's order: it is a subsequence of the listing's paths. */
  lemma {:induction false} SearchKeepsOrder(si: seq<(seq<string>, Info)>, sstrings: seq<string>, o: Options) returns (idx: seq<int>)
    requires SearchSpec(si, sstrings, o).Ok?
    ensures SubsequenceBy(SearchSpec(si, sstrings, o).value, Keys(si), idx)
    decreases |si|
  {
    if |si| == 0 {
      return [];
    }
    var init, last := si[..|si| - 1], si[|si| - 1];
    var before := SearchSpec(init, sstrings, o).value;
    idx := SearchKeepsOrder(init, sstrings, o);
    assert Keys(si) == Keys(init) + [last.0];
    SubsequenceExtend(before, Keys(init), idx, last.0);
    if MatchesAll(Haystack(last.0, last.1, o).value, sstrings, o) {
      assert SearchSpec(si, sstrings, o).value == before + [last.0];
      idx := idx + [|init|];
    } else {
      assert SearchSpec(si, sstrings, o).value == before;
    }
  }

  /** A subsequence stays one when an entry is added to the sequence, whether or not it is also kept. */
  lemma SubsequenceExtend(found: seq<seq<string>>, keys: seq<seq<string>>, idx: seq<int>, x: seq<string>)
    requires SubsequenceBy(found, keys, idx)
    ensures SubsequenceBy(found, keys + [x], idx)
    ensures SubsequenceBy(found + [x], keys + [x], idx + [|keys|])
  {
  }

  /** With no search strings every path is returned, in order, unless some info has a malformed field. */
  lemma {:induction false} EmptyQueryFindsAll(si: seq<(seq<string>, Info)>, o: Options)
    requires forall k :: 0 <= k < |si| ==> Haystack(si[k].0, si[k].1, o).Ok?
    ensures SearchSpec(si, [], o) == Ok(Keys(si))
    decreases |si|
  {
    if |si| > 0 {
      var init := si[..|si| - 1];
      assert forall k :: 0 <= k < |init| ==> init[k] == si[k];
      EmptyQueryFindsAll(init, o);
      assert Keys(si) == Keys(init) + [si[|si| - 1].0];
    }
  }

  /** Each part of a joined text occurs in it. */
  lemma {:induction false} JoinContainsParts(parts: seq<string>, sep: string, k: int)
    requires 0 <= k < |parts|
    ensures exists i :: 0 <= i <= |Join(parts, sep)| - |parts[k]| && OccursAt(Join(parts, sep), parts[k], i)
    decreases |parts|
  {
    var j := Join(parts, sep);
    if |parts| == 1 {
      assert OccursAt(j, parts[k], 0);
    } else if k == |parts| - 1 {
      var i := |j| - |parts[k]|;
      assert j[i..i + |parts[k]|] == parts[k];
      assert OccursAt(j, parts[k], i);
    } else {
      var init := parts[..|parts| - 1];
      JoinContainsParts(init, sep, k);
      var i :| 0 <= i <= |Join(init, sep)| - |init[k]| && OccursAt(Join(init, sep), init[k], i);
      assert j == Join(init, sep) + (sep + parts[|parts| - 1]);
      assert j[i..i + |parts[k]|] == Join(init, sep)[i..i + |parts[k]|];
      assert OccursAt(j, parts[k], i);
    }
  }

  /** A text that contains `sub` still does with text before it, and lower-casing both keeps the occurrence. */
  lemma OccursAfterPrefix(pre: string, s: string, sub: string, i: int, o: Options)
    requires OccursAt(s, sub, i)
    ensures OccursAt(Folded(pre + s, o), Folded(sub, o), |pre| + i)
  {
    var t := pre + s;
    assert t[|pre| + i..|pre| + i + |sub|] == sub;
    if !o.caseSensitive {
      assert forall m :: 0 <= m < |sub| ==> Lower(t)[|pre| + i + m] == Lower(sub)[m];
      assert Lower(t)[|pre| + i..|pre| + i + |sub|] == Lower(sub);
    }
  }

  /** Searching by names finds a file by any one of its own names. */
  lemma FindsByOwnName(path: seq<string>, i: Info, o: Options, k: int)
    requires o.inName && 0 <= k < |path| && Haystack(path, i, o).Ok?
    ensures MatchesAll(Haystack(path, i, o).value, [path[k]], o)
  {
    var tags := if o.inTag then TagsText(i).value else "";
    var title := if o.inTitle then TitleText(i).value else "";
    var name := Join(path, " ");
    JoinContainsParts(path, " ", k);
    var at :| 0 <= at <= |name| - |path[k]| && OccursAt(name, path[k], at);
    OccursAfterPrefix(tags + title, name, path[k], at, o);
    assert Haystack(path, i, o).value == Folded(tags + title + name, o);
  }
}
