/** One lookup of `WebScraper.search_and_extract` (main.py): the page is
    observed, the texts of the category and sub-category elements are
    stripped and the blank ones dropped, and the lookup is classified as
    found (both lists non-empty) or not found (anything else, including every
    browser error), which yields a fixed sentinel record. */
module Scraper {
  import opened PyStr

  /** What the browser gives back for one query. `Failure` stands for every
      error raised while loading the page, waiting for the body, the search
      input or the search button, or typing and clicking; `Observed` holds
      the raw texts of the elements matching `#CategoryList` and
      `#SubCategoryList`, in document order. */
  datatype Observation =
    | Failure
    | Observed(catTexts: seq<string>, subTexts: seq<string>)

  /** The dictionary returned for one query: keys "URL", "Category" and
      "Sub Category". */
  datatype Record = Record(url: string, category: string, subCategory: string)

  /** How the `try` block ends: it returns the joined lists, or it raises
      (a browser error, or the explicit "No results found"). */
  datatype Outcome =
    | Found(category: string, subCategory: string)
    | NoResults

  const NoCategoriesFound: string := "No Categories Found"
  const NoSubCategoriesFound: string := "No Sub Categories Found"

  /** The record the `except` branch returns. */
  function NotFoundRecord(url: string): (r: Record)
    ensures r.url == url
    ensures r.category == "No Categories Found"
    ensures r.subCategory == "No Sub Categories Found"
  {
    Record(url, NoCategoriesFound, NoSubCategoriesFound)
  }

  /** `[t.strip() for t in texts]`. */
  function StripAll(texts: seq<string>): (r: seq<string>)
    ensures |r| == |texts|
    ensures forall i | 0 <= i < |texts| :: r[i] == Strip(texts[i])
  {
    seq(|texts|, i requires 0 <= i < |texts| => Strip(texts[i]))
  }

  /** The non-empty strings of `strs`, in order. */
  function DropEmpty(strs: seq<string>): (kept: seq<string>)
    ensures |kept| <= |strs|
    ensures forall k | 0 <= k < |kept| :: kept[k] != []
  {
    if strs == [] then []
    else
      var n := |strs| - 1;
      DropEmpty(strs[..n]) + (if strs[n] != [] then [strs[n]] else [])
  }

  /** The positions of the non-empty strings of `strs`, in increasing order. */
  function NonEmptyPositions(strs: seq<string>): (idx: seq<nat>)
    ensures forall k | 0 <= k < |idx| :: idx[k] < |strs|
    ensures forall k, l | 0 <= k < l < |idx| :: idx[k] < idx[l]
  {
    if strs == [] then []
    else
      var n := |strs| - 1;
      NonEmptyPositions(strs[..n]) + (if strs[n] != [] then [n] else [])
  }

  /** A position is listed exactly when its string is non-empty. */
  lemma {:induction false} NonEmptyPositionsExactly(strs: seq<string>)
    ensures forall i | 0 <= i < |strs| :: i in NonEmptyPositions(strs) <==> strs[i] != []
  {
    if strs != [] {
      var n := |strs| - 1;
      var init := strs[..n];
      var idx := NonEmptyPositions(init);
      NonEmptyPositionsExactly(init);
      assert NonEmptyPositions(strs) == idx + (if strs[n] != [] then [n] else []);
      assert n !in idx;
      forall i | 0 <= i < n
        ensures i in NonEmptyPositions(strs) <==> strs[i] != []
      {
        assert strs[i] == init[i];
      }
    }
  }

  /** The kept strings are the strings at the listed positions. */
  lemma {:induction false} DropEmptyAt(strs: seq<string>)
    ensures |DropEmpty(strs)| == |NonEmptyPositions(strs)|
    ensures forall k | 0 <= k < |DropEmpty(strs)| :: DropEmpty(strs)[k] == strs[NonEmptyPositions(strs)[k]]
  {
    if strs != [] {
      var n := |strs| - 1;
      var init := strs[..n];
      DropEmptyAt(init);
      var kept, idx := DropEmpty(init), NonEmptyPositions(init);
      assert DropEmpty(strs) == kept + (if strs[n] != [] then [strs[n]] else []);
      assert NonEmptyPositions(strs) == idx + (if strs[n] != [] then [n] else []);
      forall k | 0 <= k < |kept|
        ensures DropEmpty(strs)[k] == strs[NonEmptyPositions(strs)[k]]
      {
        assert strs[idx[k]] == init[idx[k]];
      }
    }
  }

  /** Dropping empty strings distributes over concatenation. */
  lemma {:induction false} DropEmptyAppend(a: seq<string>, b: seq<string>)
    ensures DropEmpty(a + b) == DropEmpty(a) + DropEmpty(b)
    decreases |b|
  {
    if b == [] {
      assert a + b == a;
    } else {
      var n := |b| - 1;
      assert (a + b)[..|a + b| - 1] == a + b[..n];
      assert (a + b)[|a + b| - 1] == b[n];
      DropEmptyAppend(a, b[..n]);
    }
  }

  /** The list one extraction loop builds: the stripped form of each text
      whose stripped form is non-empty, in order. */
  function KeepStripped(texts: seq<string>): (kept: seq<string>)
    ensures |kept| <= |texts|
    ensures forall k | 0 <= k < |kept| :: kept[k] != []
  {
    DropEmpty(StripAll(texts))
  }

  /** The positions of the texts that survive stripping, in increasing order. */
  function KeptPositions(texts: seq<string>): (idx: seq<nat>)
    ensures forall k | 0 <= k < |idx| :: idx[k] < |texts|
    ensures forall k, l | 0 <= k < l < |idx| :: idx[k] < idx[l]
  {
    NonEmptyPositions(StripAll(texts))
  }

  /** The kept list is exactly the stripped texts at the kept positions, and
      a position is kept exactly when its text is non-blank after stripping:
      a text contributes only if its stripped form is non-empty, what is
      stored is the stripped form, and document order is preserved. */
  lemma KeepStrippedAt(texts: seq<string>)
    ensures forall i | 0 <= i < |texts| :: i in KeptPositions(texts) <==> Strip(texts[i]) != []
    ensures |KeepStripped(texts)| == |KeptPositions(texts)|
    ensures forall k | 0 <= k < |KeepStripped(texts)| ::
              KeepStripped(texts)[k] == Strip(texts[KeptPositions(texts)[k]])
  {
    NonEmptyPositionsExactly(StripAll(texts));
    DropEmptyAt(StripAll(texts));
  }

  /** Nothing is kept exactly when every text is blank after stripping. */
  lemma KeepStrippedEmpty(texts: seq<string>)
    ensures KeepStripped(texts) == [] <==> forall i | 0 <= i < |texts| :: Strip(texts[i]) == []
  {
    KeepStrippedAt(texts);
    var idx := KeptPositions(texts);
    if idx != [] {
      assert Strip(texts[idx[0]]) != [];
    }
  }

  /** Extraction distributes over concatenation of the element lists, so a
      later element can never change what an earlier one contributed. */
  lemma KeepStrippedAppend(a: seq<string>, b: seq<string>)
    ensures KeepStripped(a + b) == KeepStripped(a) + KeepStripped(b)
  {
    assert StripAll(a + b) == StripAll(a) + StripAll(b);
    DropEmptyAppend(StripAll(a), StripAll(b));
  }

  /** A single text that is blank after stripping keeps nothing. */
  lemma KeepStrippedBlank(t: string)
    requires Strip(t) == []
    ensures KeepStripped([t]) == []
  {
    var e: string := [];
    assert StripAll([t]) == [e];
    assert [e][..0] == [];
  }

  /** Inserting a text that is blank after stripping, anywhere, leaves the
      kept list as it was. */
  lemma KeepStrippedInsertBlank(texts: seq<string>, k: nat, t: string)
    requires k <= |texts| && Strip(t) == []
    ensures KeepStripped(texts[..k] + [t] + texts[k..]) == KeepStripped(texts)
  {
    var front, back := texts[..k], texts[k..];
    assert front + back == texts;
    calc {
      KeepStripped(front + [t] + back);
    == { KeepStrippedAppend(front + [t], back); }
      KeepStripped(front + [t]) + KeepStripped(back);
    == { KeepStrippedAppend(front, [t]); KeepStrippedBlank(t); }
      KeepStripped(front) + KeepStripped(back);
    == { KeepStrippedAppend(front, back); }
      KeepStripped(texts);
    }
  }

  /** One extraction loop (main.py, the two `for elem in ...` loops):
      append the stripped text of each element whose stripped text is
      non-empty. */
  method CollectStripped(texts: seq<string>) returns (kept: seq<string>)
    ensures kept == KeepStripped(texts)
  {
    ghost var stripped := StripAll(texts);
    kept := [];
    var i := 0;
    while i < |texts|
      invariant 0 <= i <= |texts|
      invariant kept == DropEmpty(stripped[..i])
    {
      var t := Strip(texts[i]);
      if t != [] {
        kept := kept + [t];
      }
      assert stripped[..i + 1][..i] == stripped[..i];
      i := i + 1;
    }
    assert stripped[..i] == stripped;
  }

  /** The `if categories and subcategories` decision: found exactly when both
      kept lists are non-empty, each then joined with newlines in order;
      otherwise the `raise`. */
  function Classify(categories: seq<string>, subcategories: seq<string>): (o: Outcome)
    ensures o.Found? <==> categories != [] && subcategories != []
  {
    if categories != [] && subcategories != [] then
      Found(JoinLines(categories), JoinLines(subcategories))
    else
      NoResults
  }

  /** Everything the `try` block computes from an observation. */
  function Lookup(obs: Observation): (o: Outcome)
    ensures obs.Failure? ==> o.NoResults?
  {
    match obs
    case Failure => NoResults
    case Observed(cats, subs) => Classify(KeepStripped(cats), KeepStripped(subs))
  }

  /** The record `search_and_extract(url)` returns for an observation: the
      found strings, or the sentinel pair; the URL is always the query. */
  function RecordFor(url: string, obs: Observation): (r: Record)
    ensures r.url == url
    ensures obs.Failure? ==> r == NotFoundRecord(url)
    ensures obs.Observed? && (KeepStripped(obs.catTexts) == [] || KeepStripped(obs.subTexts) == []) ==>
              r == NotFoundRecord(url)
  {
    match Lookup(obs)
    case Found(category, subCategory) => Record(url, category, subCategory)
    case NoResults => NotFoundRecord(url)
  }

  /** Some element text is non-blank after stripping. */
  predicate AnyNonBlank(texts: seq<string>) {
    exists i | 0 <= i < |texts| :: Strip(texts[i]) != []
  }

  /** The lookup is found exactly when the page was observed and both the
      category elements and the sub-category elements include a text that
      is non-blank after stripping. */
  lemma FoundIffBothNonBlank(obs: Observation)
    ensures Lookup(obs).Found? <==>
              obs.Observed? && AnyNonBlank(obs.catTexts) && AnyNonBlank(obs.subTexts)
  {
    if obs.Observed? {
      KeepStrippedEmpty(obs.catTexts);
      KeepStrippedEmpty(obs.subTexts);
    }
  }

  /** In the found case both strings are non-empty, the record carries the
      query, and when no kept text spans several lines, splitting each string
      on newlines gives back the kept lists unchanged and in document order. */
  lemma FoundRecord(url: string, obs: Observation)
    requires Lookup(obs).Found?
    ensures obs.Observed?
    ensures var r, cats, subs := RecordFor(url, obs), KeepStripped(obs.catTexts), KeepStripped(obs.subTexts);
      && r == Record(url, JoinLines(cats), JoinLines(subs))
      && r.category != [] && r.subCategory != []
      && (NoNewlines(cats) ==> SplitOnNewline(r.category) == cats)
      && (NoNewlines(subs) ==> SplitOnNewline(r.subCategory) == subs)
  {
    var cats, subs := KeepStripped(obs.catTexts), KeepStripped(obs.subTexts);
    JoinLinesNonEmpty(cats);
    JoinLinesNonEmpty(subs);
    if NoNewlines(cats) { SplitJoinLines(cats); }
    if NoNewlines(subs) { SplitJoinLines(subs); }
  }

  /** The record depends on the page only through the two kept lists:
      observations that keep the same lists give the same record. */
  lemma SameKeptSameRecord(url: string, o1: Observation, o2: Observation)
    requires o1.Observed? && o2.Observed?
    requires KeepStripped(o1.catTexts) == KeepStripped(o2.catTexts)
    requires KeepStripped(o1.subTexts) == KeepStripped(o2.subTexts)
    ensures RecordFor(url, o1) == RecordFor(url, o2)
  {
  }

  /** A category element whose text is blank after stripping, wherever it
      stands on the page, changes nothing. */
  lemma BlankCategoryIgnored(url: string, cats: seq<string>, subs: seq<string>, k: nat, t: string)
    requires k <= |cats| && Strip(t) == []
    ensures RecordFor(url, Observed(cats[..k] + [t] + cats[k..], subs)) == RecordFor(url, Observed(cats, subs))
  {
    KeepStrippedInsertBlank(cats, k, t);
  }

  /** A sub-category element whose text is blank after stripping, wherever
      it stands on the page, changes nothing. */
  lemma BlankSubCategoryIgnored(url: string, cats: seq<string>, subs: seq<string>, k: nat, t: string)
    requires k <= |subs| && Strip(t) == []
    ensures RecordFor(url, Observed(cats, subs[..k] + [t] + subs[k..])) == RecordFor(url, Observed(cats, subs))
  {
    KeepStrippedInsertBlank(subs, k, t);
  }

  /** `search_and_extract(url)` once the browser has answered with `obs`:
      the two extraction loops, then the found/not-found decision. */
  method SearchAndExtract(url: string, obs: Observation) returns (r: Record)
    ensures r == RecordFor(url, obs)
  {
    if obs.Failure? {
      return NotFoundRecord(url);
    }
    var categories := CollectStripped(obs.catTexts);
    var subcategories := CollectStripped(obs.subTexts);
    if categories != [] && subcategories != [] {
      r := Record(url, JoinLines(categories), JoinLines(subcategories));
    } else {
      r := NotFoundRecord(url);
    }
  }

  /** A label padded with whitespace, followed by a blank element, is kept
      as the bare label. */
  lemma PaddedLabelKept(pre: string, x: string, post: string, blank: string)
    requires AllSpace(pre) && AllSpace(post) && AllSpace(blank)
    requires x != [] && !IsSpace(x[0]) && !IsSpace(x[|x| - 1])
    ensures KeepStripped([pre + x + post, blank]) == [x]
  {
    var padded := pre + x + post;
    assert Strip(blank) == [] by { StripEmpty(blank); }
    calc {
      KeepStripped([padded, blank]);
    == { assert [padded, blank] == [padded] + [blank]; }
      KeepStripped([padded] + [blank]);
    == { KeepStrippedAppend([padded], [blank]); KeepStrippedBlank(blank); }
      KeepStripped([padded]);
    == { StripPadded(pre, x, post); assert StripAll([padded]) == [x]; assert [padded][..0] == []; }
      [x];
    }
  }

  /** A lookup whose page shows one padded category label beside a blank
      element, and one sub-category label, records the two bare labels. */
  lemma PaddedLabelsFound(url: string, pre: string, cat: string, post: string, blank: string, sub: string)
    requires AllSpace(pre) && AllSpace(post) && AllSpace(blank)
    requires cat != [] && !IsSpace(cat[0]) && !IsSpace(cat[|cat| - 1])
    requires sub != [] && !IsSpace(sub[0]) && !IsSpace(sub[|sub| - 1])
    ensures RecordFor(url, Observed([pre + cat + post, blank], [sub])) == Record(url, cat, sub)
  {
    PaddedLabelKept(pre, cat, post, blank);
    assert KeepStripped([sub]) == [sub] by {
      StripUnpadded(sub);
      assert StripAll([sub]) == [sub];
      assert [sub][..0] == [];
    }
  }

  /** The worked lookup for "tiktok.com". */
  lemma TikTokExample()
    ensures RecordFor("tiktok.com", Observed([" Social Networking\n", "  "], ["General Social Networking"]))
            == Record("tiktok.com", "Social Networking", "General Social Networking")
  {
    assert " Social Networking\n" == " " + "Social Networking" + "\n";
    PaddedLabelsFound("tiktok.com", " ", "Social Networking", "\n", "  ", "General Social Networking");
  }
}
