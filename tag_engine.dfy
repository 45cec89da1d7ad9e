/**
 * Text helpers of the note widget: the tag pattern `#\w+` and its global
 * scan, splitting on a separator and joining back, `String.prototype.replace`
 * and `replaceAll` with a string pattern, and the word-by-word highlighting
 * of a note's text.
 */
module TagEngine {
  import opened Seqs

  /** `\w`, which is `[A-Za-z0-9_]` unless the `u` and `i` flags are both set. */
  predicate IsWordChar(c: char) {
    ('A' <= c <= 'Z') || ('a' <= c <= 'z') || ('0' <= c <= '9') || c == '_'
  }

  /** A whole string matching `#\w+`. */
  predicate IsTag(t: string) {
    |t| >= 2 && t[0] == '#' && forall m :: 1 <= m < |t| ==> IsWordChar(t[m])
  }

  /** A match of `#\w+` can begin at position `i` of `s`. */
  predicate TagStartsAt(s: string, i: int) {
    0 <= i && i + 1 < |s| && s[i] == '#' && IsWordChar(s[i + 1])
  }

  /** Where the greedy run `\w+` that starts at `k` stops. */
  function WordEnd(s: string, k: nat): (e: nat)
    requires k <= |s|
    ensures k <= e <= |s|
    ensures forall m :: k <= m < e ==> IsWordChar(s[m])
    ensures e == |s| || !IsWordChar(s[e])
    decreases |s| - k
  {
    if k < |s| && IsWordChar(s[k]) then WordEnd(s, k + 1) else k
  }

  /** The half-open index range `[start, end)` of one match. */
  datatype Span = Span(start: nat, end: nat)

  /** The positions where the spans begin. */
  function Starts(sp: seq<Span>): set<int> {
    set k | 0 <= k < |sp| :: sp[k].start
  }

  /**
   * The global scan of `/#\w+/g` from index `i`: try a match at `i`; on
   * success continue right after it, otherwise one character further on.
   */
  function Scan(s: string, i: nat): (r: seq<Span>)
    requires i <= |s|
    ensures forall k :: 0 <= k < |r| ==>
              i <= r[k].start && TagStartsAt(s, r[k].start) && r[k].end == WordEnd(s, r[k].start + 1)
    decreases |s| - i
  {
    if i == |s| then []
    else if TagStartsAt(s, i) then [Span(i, WordEnd(s, i + 1))] + Scan(s, WordEnd(s, i + 1))
    else Scan(s, i + 1)
  }

  /** Matches come left to right and do not overlap. */
  lemma {:induction false} ScanOrdered(s: string, i: nat)
    requires i <= |s|
    ensures forall k :: 0 <= k < |Scan(s, i)| - 1 ==> Scan(s, i)[k].end <= Scan(s, i)[k + 1].start
    decreases |s| - i
  {
    if i < |s| {
      if TagStartsAt(s, i) {
        var e := WordEnd(s, i + 1);
        var rest := Scan(s, e);
        assert Scan(s, i) == [Span(i, e)] + rest;
        ScanOrdered(s, e);
        assert rest != [] ==> e <= rest[0].start;
      } else {
        assert Scan(s, i) == Scan(s, i + 1);
        ScanOrdered(s, i + 1);
      }
    }
  }

  /** Every position from `i` on where `#\w` stands begins a match. */
  lemma {:induction false} ScanFinds(s: string, i: nat, q: int)
    requires i <= q && TagStartsAt(s, q)
    ensures exists k :: 0 <= k < |Scan(s, i)| && Scan(s, i)[k].start == q
    decreases |s| - i
  {
    if TagStartsAt(s, i) {
      var e := WordEnd(s, i + 1);
      var rest := Scan(s, e);
      var r := [Span(i, e)] + rest;
      assert Scan(s, i) == r;
      if q == i {
        assert r[0].start == q;
      } else {
        // a `#` is not a word character, so it cannot lie inside this match
        assert e <= q by {
          assert !IsWordChar(s[q]);
        }
        ScanFinds(s, e, q);
        var k :| 0 <= k < |rest| && rest[k].start == q;
        assert r[k + 1].start == q;
      }
    } else {
      assert Scan(s, i) == Scan(s, i + 1);
      ScanFinds(s, i + 1, q);
    }
  }

  /** The matches begin exactly where `#` is followed by a word character. */
  lemma ScanComplete(s: string)
    ensures forall q :: q in Starts(Scan(s, 0)) <==> TagStartsAt(s, q)
  {
    forall q | TagStartsAt(s, q) ensures q in Starts(Scan(s, 0)) {
      ScanFinds(s, 0, q);
      var k :| 0 <= k < |Scan(s, 0)| && Scan(s, 0)[k].start == q;
    }
  }

  /** `value.match(/#\w+/g) || []`: every match, duplicates kept. */
  function ExtractTags(s: string): seq<string> {
    var sp := Scan(s, 0);
    seq(|sp|, k requires 0 <= k < |sp| => s[sp[k].start..sp[k].end])
  }

  /**
   * The tags of a text are the texts of the scan's matches, in the same
   * order, and each of them is a whole `#\w+`.
   */
  lemma ExtractTagsSpec(s: string)
    ensures |ExtractTags(s)| == |Scan(s, 0)|
    ensures forall k :: 0 <= k < |ExtractTags(s)| ==>
              ExtractTags(s)[k] == s[Scan(s, 0)[k].start..Scan(s, 0)[k].end] && IsTag(ExtractTags(s)[k])
  {
    var sp, r := Scan(s, 0), ExtractTags(s);
    forall k | 0 <= k < |r| ensures IsTag(r[k]) {
      var a, b := sp[k].start, sp[k].end;
      assert r[k] == s[a..b];
      forall m | 1 <= m < |r[k]| ensures IsWordChar(r[k][m]) {
        assert r[k][m] == s[a + m];
      }
    }
  }

  /** Text without `#` has no tags. */
  lemma NoHashNoTags(s: string)
    ensures '#' !in s ==> ExtractTags(s) == []
  {
    var sp := Scan(s, 0);
    if sp != [] {
      assert s[sp[0].start] == '#';
    }
  }

  /** Every extracted tag is a substring of the text. */
  lemma ExtractTagsOccur(s: string)
    ensures forall t :: t in ExtractTags(s) ==> IsTag(t) && Contains(s, t)
  {
    ExtractTagsSpec(s);
    var sp, r := Scan(s, 0), ExtractTags(s);
    forall t | t in r ensures Contains(s, t) {
      var k :| 0 <= k < |r| && r[k] == t;
      assert t == s[sp[k].start..sp[k].end];
      SliceContained(s, sp[k].start, sp[k].end);
    }
  }

  /** A tag on its own yields exactly itself. */
  lemma ExtractTagsOfTag(t: string)
    requires IsTag(t)
    ensures ExtractTags(t) == [t]
  {
    assert TagStartsAt(t, 0);
    var e := WordEnd(t, 1);
    assert e == |t|;
    assert Scan(t, 0) == [Span(0, |t|)];
    assert ExtractTags(t)[0] == t[0..|t|] == t;
  }

  /** `pat` occurs somewhere in `s`. */
  predicate Contains(s: string, pat: string)
    decreases |s|
  {
    pat <= s || (|s| > 0 && Contains(s[1..], pat))
  }

  lemma {:induction false} SliceContained(s: string, a: nat, b: nat)
    requires a <= b <= |s|
    ensures Contains(s, s[a..b])
    decreases a
  {
    if a > 0 {
      assert forall m :: 0 <= m < b - a ==> s[a..b][m] == s[1..][a - 1..b - 1][m];
      assert s[a..b] == s[1..][a - 1..b - 1];
      SliceContained(s[1..], a - 1, b - 1);
    }
  }

  /** A character that does not occur as a one-character pattern does not occur. */
  lemma {:induction false} AbsentChar(w: string, c: char)
    ensures !Contains(w, [c]) ==> c !in w
    decreases |w|
  {
    if |w| > 0 {
      AbsentChar(w[1..], c);
      assert w == [w[0]] + w[1..];
    }
  }

  // ---------------------------------------------------------------------
  // split and join
  // ---------------------------------------------------------------------

  /** `s.split(pat)` for a non-empty string separator. */
  function SplitOn(s: string, pat: string): (r: seq<string>)
    requires |pat| > 0
    ensures |r| >= 1 && r[0] <= s
    decreases |s|
  {
    if pat <= s then [""] + SplitOn(s[|pat|..], pat)
    else if |s| == 0 then [""]
    else
      var rest := SplitOn(s[1..], pat);
      [[s[0]] + rest[0]] + rest[1..]
  }

  /** No piece contains the separator. */
  lemma {:induction false} SplitPiecesFree(s: string, pat: string)
    requires |pat| > 0
    ensures forall k :: 0 <= k < |SplitOn(s, pat)| ==> !Contains(SplitOn(s, pat)[k], pat)
    decreases |s|
  {
    if pat <= s {
      SplitPiecesFree(s[|pat|..], pat);
      var rest := SplitOn(s[|pat|..], pat);
      forall k | 0 <= k < |SplitOn(s, pat)| ensures !Contains(SplitOn(s, pat)[k], pat) {
        if k > 0 {
          assert SplitOn(s, pat)[k] == rest[k - 1];
        }
      }
    } else if |s| > 0 {
      SplitPiecesFree(s[1..], pat);
      var rest := SplitOn(s[1..], pat);
      var first := [s[0]] + rest[0];
      assert !Contains(first, pat) by {
        assert first[1..] == rest[0];
      }
      forall k | 0 <= k < |SplitOn(s, pat)| ensures !Contains(SplitOn(s, pat)[k], pat) {
        if k > 0 {
          assert SplitOn(s, pat)[k] == rest[k];
        }
      }
    }
  }

  /** `ws.join(sep)`. */
  function Join(ws: seq<string>, sep: string): string
    decreases |ws|
  {
    if |ws| == 0 then ""
    else if |ws| == 1 then ws[0]
    else ws[0] + sep + Join(ws[1..], sep)
  }

  /** Prefixing a character to the first piece prefixes it to the joined string. */
  lemma JoinPrepend(c: char, ws: seq<string>, sep: string)
    requires |ws| >= 1
    ensures Join([[c] + ws[0]] + ws[1..], sep) == [c] + Join(ws, sep)
  {
    var vs := [[c] + ws[0]] + ws[1..];
    if |ws| > 1 {
      assert vs[1..] == ws[1..];
      assert Join(vs, sep) == ([c] + ws[0]) + sep + Join(ws[1..], sep);
    }
  }

  /** Joining the pieces with the separator gives back the text. */
  lemma {:induction false} JoinSplit(s: string, pat: string)
    requires |pat| > 0
    ensures Join(SplitOn(s, pat), pat) == s
    decreases |s|
  {
    if pat <= s {
      JoinSplit(s[|pat|..], pat);
      var rest := SplitOn(s[|pat|..], pat);
      assert ([""] + rest)[1..] == rest;
      assert s == pat + s[|pat|..];
    } else if |s| > 0 {
      JoinSplit(s[1..], pat);
      var rest := SplitOn(s[1..], pat);
      JoinPrepend(s[0], rest, pat);
      assert s == [s[0]] + s[1..];
    }
  }

  /** There is one more piece than there are separators. */
  lemma {:induction false} SplitCount(s: string, c: char)
    ensures |SplitOn(s, [c])| == multiset(s)[c] + 1
    decreases |s|
  {
    if |s| > 0 {
      SplitCount(s[1..], c);
      assert s == [s[0]] + s[1..];
      if [c] <= s {
        assert s[|[c]|..] == s[1..];
      }
    }
  }

  /** A word with no separator in it, then a separator, splits off as one piece. */
  lemma {:induction false} SplitWord(w: string, c: char, rest: string)
    requires c !in w
    ensures SplitOn(w + [c] + rest, [c]) == [w] + SplitOn(rest, [c])
    decreases |w|
  {
    var s := w + [c] + rest;
    if |w| == 0 {
      assert [c] <= s && s[1..] == rest;
    } else {
      assert s[0] == w[0] && w[0] != c;
      assert !([c] <= s);
      assert s[1..] == w[1..] + [c] + rest;
      SplitWord(w[1..], c, rest);
      assert [w[0]] + w[1..] == w;
    }
  }

  /** With no separator in it, a word is a single piece. */
  lemma {:induction false} SplitNone(w: string, c: char)
    requires c !in w
    ensures SplitOn(w, [c]) == [w]
    decreases |w|
  {
    if |w| > 0 {
      assert w[0] != c;
      assert !([c] <= w);
      SplitNone(w[1..], c);
      assert [w[0]] + w[1..] == w;
    }
  }

  /** Splitting a join of separator-free words on that separator gives the words back. */
  lemma {:induction false} SplitJoin(ws: seq<string>, c: char)
    requires |ws| >= 1
    requires forall k :: 0 <= k < |ws| ==> c !in ws[k]
    ensures SplitOn(Join(ws, [c]), [c]) == ws
    decreases |ws|
  {
    if |ws| == 1 {
      SplitNone(ws[0], c);
    } else {
      SplitJoin(ws[1..], c);
      SplitWord(ws[0], c, Join(ws[1..], [c]));
      assert ws == [ws[0]] + ws[1..];
    }
  }

  // ---------------------------------------------------------------------
  // replace and replaceAll with a string pattern
  // ---------------------------------------------------------------------

  /** `w.replace(c, '')` for a one-character string pattern: drops the first `c`. */
  function RemoveFirst(w: string, c: char): string
    decreases |w|
  {
    if |w| == 0 then ""
    else if w[0] == c then w[1..]
    else [w[0]] + RemoveFirst(w[1..], c)
  }

  /** A word without `c` is unchanged. */
  lemma {:induction false} RemoveFirstAbsent(w: string, c: char)
    requires c !in w
    ensures RemoveFirst(w, c) == w
    decreases |w|
  {
    if |w| > 0 {
      assert w[0] != c && c !in w[1..];
      RemoveFirstAbsent(w[1..], c);
      assert w == [w[0]] + w[1..];
    }
  }

  /** Only the first occurrence of `c` is dropped. */
  lemma {:induction false} RemoveFirstAt(w: string, c: char)
    requires c in w
    ensures RemoveFirst(w, c) == w[..IndexOf(w, c)] + w[IndexOf(w, c) + 1..]
    decreases |w|
  {
    if w[0] != c {
      var v := w[1..];
      assert c in v;
      RemoveFirstAt(v, c);
      var i := IndexOf(v, c);
      assert w[..i + 1] == [w[0]] + v[..i];
      IndexOfUnique(w, c, i + 1);
      assert w[i + 2..] == v[i + 1..];
    }
  }

  /**
   * Only the first occurrence of `c` is dropped; a word without `c` is
   * unchanged; a whole tag loses its leading `#`.
   */
  lemma RemoveFirstSpec(w: string, c: char)
    ensures c !in w ==> RemoveFirst(w, c) == w
    ensures c in w ==> RemoveFirst(w, c) == w[..IndexOf(w, c)] + w[IndexOf(w, c) + 1..]
    ensures IsTag(w) && c == '#' ==> RemoveFirst(w, c) == w[1..]
  {
    if c in w {
      RemoveFirstAt(w, c);
    } else {
      RemoveFirstAbsent(w, c);
    }
  }

  /** `s.replaceAll(pat, rep)` with an empty pattern: `rep` before, between and after every character. */
  function Interleave(s: string, rep: string): string
    decreases |s|
  {
    if |s| == 0 then rep else rep + [s[0]] + Interleave(s[1..], rep)
  }

  /**
   * `s.replaceAll(pat, rep)` with a string pattern: every leftmost,
   * non-overlapping occurrence of `pat` is replaced, scanning once.
   */
  function ReplaceAll(s: string, pat: string, rep: string): string
    decreases |s|
  {
    if |pat| == 0 then Interleave(s, rep)
    else if pat <= s then rep + ReplaceAll(s[|pat|..], pat, rep)
    else if |s| == 0 then ""
    else [s[0]] + ReplaceAll(s[1..], pat, rep)
  }

  /**
   * Replacing every occurrence is splitting on the pattern and joining with
   * the replacement: the text is made of pattern-free pieces separated by
   * `pat`, and the result has the same pieces separated by `rep`.
   */
  lemma {:induction false} ReplaceAllSplitJoin(s: string, pat: string, rep: string)
    requires |pat| > 0
    ensures ReplaceAll(s, pat, rep) == Join(SplitOn(s, pat), rep)
    decreases |s|
  {
    if pat <= s {
      ReplaceAllSplitJoin(s[|pat|..], pat, rep);
      var rest := SplitOn(s[|pat|..], pat);
      assert SplitOn(s, pat) == [""] + rest;
      assert ([""] + rest)[1..] == rest;
      assert Join([""] + rest, rep) == "" + rep + Join(rest, rep);
      assert ReplaceAll(s, pat, rep) == rep + ReplaceAll(s[|pat|..], pat, rep);
    } else if |s| > 0 {
      ReplaceAllSplitJoin(s[1..], pat, rep);
      var rest := SplitOn(s[1..], pat);
      assert SplitOn(s, pat) == [[s[0]] + rest[0]] + rest[1..];
      assert ReplaceAll(s, pat, rep) == [s[0]] + ReplaceAll(s[1..], pat, rep);
      JoinPrepend(s[0], rest, rep);
    }
  }

  /** A text in which the pattern does not occur is left as it is. */
  lemma {:induction false} ReplaceAllAbsent(s: string, pat: string, rep: string)
    requires |pat| > 0 && !Contains(s, pat)
    ensures ReplaceAll(s, pat, rep) == s
    decreases |s|
  {
    if |s| > 0 {
      ReplaceAllAbsent(s[1..], pat, rep);
    }
  }

  /** With an empty pattern and an empty replacement nothing changes. */
  lemma {:induction false} InterleaveEmpty(s: string)
    ensures Interleave(s, "") == s
    decreases |s|
  {
    if |s| > 0 {
      InterleaveEmpty(s[1..]);
    }
  }

  /** `t.slice(1)`: everything after the first character. */
  function Rest(t: string): string {
    if |t| == 0 then "" else t[1..]
  }

  /**
   * Stripping a tag's marker: the text is pieces separated by `#w`, and
   * afterwards the same pieces are separated by `w`; the empty string
   * strips nothing.
   */
  lemma StripMarker(s: string, t: string)
    ensures |t| > 0 ==> s == Join(SplitOn(s, t), t) && ReplaceAll(s, t, Rest(t)) == Join(SplitOn(s, t), t[1..])
    ensures |t| > 0 && !Contains(s, t) ==> ReplaceAll(s, t, Rest(t)) == s
    ensures |t| == 0 ==> ReplaceAll(s, t, Rest(t)) == s
  {
    if |t| > 0 {
      JoinSplit(s, t);
      ReplaceAllSplitJoin(s, t, Rest(t));
      if !Contains(s, t) {
        ReplaceAllAbsent(s, t, Rest(t));
      }
    } else {
      InterleaveEmpty(s);
    }
  }

  // ---------------------------------------------------------------------
  // highlighting
  // ---------------------------------------------------------------------

  /**
   * One word of a highlighted text: an empty word (from consecutive
   * spaces), a word equal to one of the note's tags shown without its
   * first `#`, or any other word shown as it is.
   */
  datatype Segment = Blank | Emphasized(word: string, shown: string) | Plain(word: string) {
    /** The word this segment was made from. */
    function Word(): string {
      match this
      case Blank => ""
      case Emphasized(w, _) => w
      case Plain(w) => w
    }
  }

  function Classify(w: string, tags: seq<string>): Segment {
    if w == "" then Blank
    else if w in tags then Emphasized(w, RemoveFirst(w, '#'))
    else Plain(w)
  }

  /** `text.split(' ').map(...)` of `highlightNote`. */
  function Tokenize(text: string, tags: seq<string>): seq<Segment> {
    var words := SplitOn(text, " ");
    seq(|words|, k requires 0 <= k < |words| => Classify(words[k], tags))
  }

  function Words(segs: seq<Segment>): seq<string> {
    seq(|segs|, k requires 0 <= k < |segs| => segs[k].Word())
  }

  /** The segments' words are the pieces of `text.split(' ')`. */
  lemma WordsOfTokenize(text: string, tags: seq<string>)
    ensures Words(Tokenize(text, tags)) == SplitOn(text, " ")
  {
    var words := SplitOn(text, " ");
    var segs := Tokenize(text, tags);
    forall k | 0 <= k < |words| ensures Words(segs)[k] == words[k] {
      assert segs[k] == Classify(words[k], tags);
    }
  }

  /**
   * Highlighting yields one segment more than there are spaces, and the
   * segments' words, none of which holds a space, joined by spaces give
   * back the text.
   */
  lemma TokenizeRoundTrip(text: string, tags: seq<string>)
    ensures |Tokenize(text, tags)| == multiset(text)[' '] + 1
    ensures Join(Words(Tokenize(text, tags)), " ") == text
    ensures forall k :: 0 <= k < |Tokenize(text, tags)| ==> ' ' !in Words(Tokenize(text, tags))[k]
  {
    var words := SplitOn(text, " ");
    WordsOfTokenize(text, tags);
    JoinSplit(text, " ");
    SplitCount(text, ' ');
    SplitPiecesFree(text, " ");
    forall k | 0 <= k < |words| ensures ' ' !in words[k] {
      AbsentChar(words[k], ' ');
    }
  }

  /**
   * A segment is emphasized exactly when its word is non-empty and one of
   * the tags, and it then shows the word without its first `#` (for a whole
   * tag, the word without its leading marker); it is
   * blank exactly when its word is empty.
   */
  lemma TokenizeClassify(text: string, tags: seq<string>)
    ensures forall k :: 0 <= k < |Tokenize(text, tags)| ==>
              var seg := Tokenize(text, tags)[k];
              (seg.Emphasized? <==> seg.Word() != "" && seg.Word() in tags) &&
              (seg.Blank? <==> seg.Word() == "") &&
              (seg.Emphasized? ==> seg.shown == RemoveFirst(seg.word, '#'))
    ensures (forall t :: t in tags ==> IsTag(t)) ==>
              forall k :: 0 <= k < |Tokenize(text, tags)| ==>
                Tokenize(text, tags)[k].Emphasized? ==> Tokenize(text, tags)[k].shown == Tokenize(text, tags)[k].word[1..]
  {
    var segs := Tokenize(text, tags);
    if forall t :: t in tags ==> IsTag(t) {
      forall k | 0 <= k < |segs| && segs[k].Emphasized? ensures segs[k].shown == segs[k].word[1..] {
        RemoveFirstSpec(segs[k].word, '#');
      }
    }
  }

  /** Highlighting a text assembled from space-free words yields exactly those words. */
  lemma TokenizeJoin(words: seq<string>, tags: seq<string>)
    requires |words| >= 1
    requires forall k :: 0 <= k < |words| ==> ' ' !in words[k]
    ensures Words(Tokenize(Join(words, " "), tags)) == words
  {
    var text := Join(words, " ");
    WordsOfTokenize(text, tags);
    SplitJoin(words, ' ');
    assert SplitOn(text, " ") == words;
  }
}
