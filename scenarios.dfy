/**
 * Concrete inputs that show how the tag scan and the tag deletion behave
 * on particular texts.
 */
module Scenarios {
  import opened Seqs
  import opened TagEngine
  import opened Notes

  /**
   * The scan keeps repeated tags; only the tag lists shown on screen
   * (`[...new Set(tags)]`) drop the repetition.
   */
  lemma RepeatedTagsKept()
    ensures ExtractTags("#a #a #b") == ["#a", "#a", "#b"]
  {
    var s := "#a #a #b";
    assert Scan(s, 8) == [];
    assert Scan(s, 7) == [];
    assert WordEnd(s, 8) == 8 && WordEnd(s, 7) == 8;
    assert Scan(s, 6) == [Span(6, 8)];
    assert Scan(s, 5) == [Span(6, 8)];
    assert WordEnd(s, 5) == 5 && WordEnd(s, 4) == 5;
    assert Scan(s, 3) == [Span(3, 5), Span(6, 8)];
    assert Scan(s, 2) == [Span(3, 5), Span(6, 8)];
    assert WordEnd(s, 2) == 2 && WordEnd(s, 1) == 2;
    assert Scan(s, 0) == [Span(0, 2), Span(3, 5), Span(6, 8)];
    assert s[0..2] == "#a" && s[3..5] == "#a" && s[6..8] == "#b";
  }

  /** `[...new Set(["#a", "#a", "#b"])]` is `["#a", "#b"]`. */
  lemma DedupOfRepeated()
    ensures Dedup(["#a", "#a", "#b"]) == ["#a", "#b"]
  {
    var t1, t2, t3 := ["#a"], ["#a", "#a"], ["#a", "#a", "#b"];
    assert t1[..0] == [];
    assert Dedup(t1) == ["#a"];
    assert t2[..1] == t1;
    assert Dedup(t2) == ["#a"];
    assert t3[..2] == t2;
  }

  /** The list shown under the input keeps each tag of the draft once. */
  lemma RepeatedTagsShownOnce()
    ensures Dedup(ExtractTags("#a #a #b")) == ["#a", "#b"]
  {
    RepeatedTagsKept();
    DedupOfRepeated();
  }

  /** `"#workday".replaceAll("#work", "work")` is `"workday"`. */
  lemma ReplaceInsideLongerTag()
    ensures ReplaceAll("#workday", "#work", "work") == "workday"
  {
    var p, r := "#work", "work";
    assert ReplaceAll("", p, r) == "";
    assert ReplaceAll("y", p, r) == "y";
    assert ReplaceAll("ay", p, r) == "ay";
    assert ReplaceAll("day", p, r) == "day";
    assert p <= "#workday" && "#workday"[5..] == "day";
  }

  /** `["#workday"].filter((tag) => tag !== "#work")` keeps `#workday`. */
  lemma LongerTagKept()
    ensures Without(["#workday"], "#work") == ["#workday"]
  {
    var ts := ["#workday"];
    assert ts[0] != "#work" && ts[1..] == [];
  }

  /**
   * Deleting `#work` also rewrites `#workday` (the replacement works on
   * substrings), while the note keeps `#workday` among its tags, so the
   * tags are no longer those of the text.
   */
  lemma DeleteTagRewritesLongerTag()
    ensures var n := Note("1", "", "#workday", ["#workday"]);
      ExtractTags(n.text) == n.tags &&
      StripTag(n, "#work").text == "workday" &&
      StripTag(n, "#work").tags == ["#workday"] &&
      ExtractTags(StripTag(n, "#work").text) == []
  {
    var n := Note("1", "", "#workday", ["#workday"]);
    ExtractTagsOfTag("#workday");
    NoHashNoTags("workday");
    ReplaceInsideLongerTag();
    LongerTagKept();
    assert Rest("#work") == "work";
    assert StripTag(n, "#work") == n.(text := "workday", tags := ["#workday"]);
  }
}
