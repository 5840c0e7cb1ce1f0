/**
 * The tag grammar of the journal: which strings are tags, and how the first
 * inline `#tag` token is cut out of typed text (src/lib/tag.ts).
 *
 * Strings are sequences of characters, and every index here (the `#`, the
 * tag's bounds, the splice index) counts characters. The source's strings
 * are sequences of UTF-16 code units, so its indices count code units: a
 * character outside the Basic Multilingual Plane (an emoji) before the tag
 * moves the source's indices one further than the model's. The tag and the
 * text after the splice are the same in both.
 */
module Tags {
  import opened Wrappers

  /** A character of the class `A-Za-z0-9_-` (TAG_CHARS). */
  predicate IsTagChar(c: char) {
    ('A' <= c <= 'Z') || ('a' <= c <= 'z') || ('0' <= c <= '9') || c == '_' || c == '-'
  }

  /** The end of the longest run of tag characters in `s` that starts at index `j`. */
  function RunEnd(s: string, j: nat): (k: nat)
    requires j <= |s|
    ensures j <= k <= |s|
    ensures forall i :: j <= i < k ==> IsTagChar(s[i])
    ensures k < |s| ==> !IsTagChar(s[k])
    decreases |s| - j
  {
    if j < |s| && IsTagChar(s[j]) then RunEnd(s, j + 1) else j
  }

  /** `isValidTag`: the anchored pattern `^[A-Za-z0-9_-]+$` matches the whole string. */
  predicate IsValidTag(s: string) {
    0 < |s| && RunEnd(s, 0) == |s|
  }

  /** A tag is exactly a non-empty string of tag characters. */
  lemma IsValidTagIff(s: string)
    ensures IsValidTag(s) <==> 0 < |s| && forall i :: 0 <= i < |s| ==> IsTagChar(s[i])
  {
  }

  lemma IsValidTagExamples()
    ensures IsValidTag("foo-bar_1")
    ensures !IsValidTag("foo bar")
    ensures !IsValidTag("")
  {
    IsValidTagIff("foo-bar_1");
    assert !IsTagChar("foo bar"[3]);
  }

  /**
   * The extraction pattern `([^T]|^)#([T]+)([^T])` (T = TAG_CHARS) matches
   * with its `#` at index `h` and its tag group occupying `raw[h+1..e]`: the
   * `#` starts the text or follows a non-tag character, the group is a
   * non-empty run of tag characters, and a non-tag character follows it.
   */
  ghost predicate MatchesAt(raw: string, h: int, e: int) {
    && 0 <= h
    && h + 1 < e < |raw|
    && raw[h] == '#'
    && (h == 0 || !IsTagChar(raw[h - 1]))
    && (forall i :: h + 1 <= i < e ==> IsTagChar(raw[i]))
    && !IsTagChar(raw[e])
  }

  /** The tag group of a match is the maximal run after the `#`, so `h` alone fixes the match. */
  lemma MatchEndIsRunEnd(raw: string, h: int, e: int)
    requires MatchesAt(raw, h, e)
    ensures e == RunEnd(raw, h + 1)
  {
  }

  /**
   * The scan `raw.match` performs: the first index at or after `from` whose
   * `#` starts a match. A regular-expression match is the one that starts
   * leftmost; a match with its `#` at `h` starts at `h - 1` (or at 0 when `h`
   * is 0), and the matches at `h = 0` and `h = 1` exclude each other, so the
   * leftmost match is the one with the least `#` index.
   */
  function FirstMatchFrom(raw: string, from: nat): (r: Option<nat>)
    requires from <= |raw|
    ensures r.None? ==> forall h, e :: from <= h ==> !MatchesAt(raw, h, e)
    ensures r.Some? ==> from <= r.value < |raw| && MatchesAt(raw, r.value, RunEnd(raw, r.value + 1))
    ensures r.Some? ==> forall h, e :: from <= h < r.value ==> !MatchesAt(raw, h, e)
    decreases |raw| - from
  {
    if from == |raw| then None
    else if
      && raw[from] == '#'
      && (from == 0 || !IsTagChar(raw[from - 1]))
      && from + 1 < RunEnd(raw, from + 1) < |raw|
    then
      Some(from)
    else
      var r := FirstMatchFrom(raw, from + 1);
      assert forall e :: !MatchesAt(raw, from, e) by {
        forall e | MatchesAt(raw, from, e) ensures false {
          MatchEndIsRunEnd(raw, from, e);
        }
      }
      r
  }

  /** What `extractTag` returns when a tag was found. */
  datatype Extraction = Extraction(tag: string, text: string, spliceIndex: nat)

  /** The `prevChar` group: empty when the `#` starts the text, else the character before it. */
  function PrevChar(raw: string, h: nat): string
    requires h < |raw|
  {
    if h == 0 then "" else [raw[h - 1]]
  }

  /** Whether the character before the `#` is removed too (`removePrev`). */
  predicate RemovePrev(prevChar: string, nextChar: char) {
    prevChar == " " && nextChar == '\n'
  }

  /** Whether the character after the tag is removed too (`removeNext`). */
  predicate RemoveNext(prevChar: string, nextChar: char) {
    || (prevChar == "" && nextChar == ' ')
    || (prevChar == " " && nextChar == ' ')
    || (prevChar == "\n" && nextChar == '\n')
  }

  /** Never both neighbours are removed. */
  lemma RemoveFlagsExclusive(prevChar: string, nextChar: char)
    ensures !(RemovePrev(prevChar, nextChar) && RemoveNext(prevChar, nextChar))
  {
  }

  /**
   * `extractTag`: cut the first inline `#tag` token out of `raw`, with one
   * neighbouring space or newline as the removal flags say, and report the
   * index where the cut began. `None` when the pattern does not match.
   */
  function ExtractTag(raw: string): (r: Option<Extraction>)
    ensures r.None? <==> forall h, e :: !MatchesAt(raw, h, e)
    ensures r.Some? ==> IsValidTag(r.value.tag)
    ensures r.Some? ==> r.value.spliceIndex <= |r.value.text| < |raw| - |r.value.tag|
  {
    match FirstMatchFrom(raw, 0)
    case None => None
    case Some(h) =>
      var tagStart := h + 1;
      var tagEnd := RunEnd(raw, tagStart);
      var prevChar := PrevChar(raw, h);
      var nextChar := raw[tagEnd];
      var removeFrom := if RemovePrev(prevChar, nextChar) then tagStart - 2 else tagStart - 1;
      var removeTo := if RemoveNext(prevChar, nextChar) then tagEnd + 1 else tagEnd;
      var tag := raw[tagStart..tagEnd];
      IsValidTagIff(tag);
      Some(Extraction(tag, raw[..removeFrom] + raw[removeTo..], removeFrom))
  }

  /**
   * The result of `extractTag` in terms of its first match: the tag is the
   * group, the text is `raw` without `raw[removeFrom..removeTo]`, where the
   * cut starts at the `#` (one earlier with removePrev) and ends after the
   * tag (one later with removeNext), and the splice index is where the cut
   * starts. The cut never runs past either end of `raw`.
   */
  lemma ExtractTagAtFirstMatch(raw: string, h: nat, e: nat)
    requires MatchesAt(raw, h, e)
    requires forall h', e' :: MatchesAt(raw, h', e') ==> h <= h'
    ensures var prevChar, nextChar := PrevChar(raw, h), raw[e];
            var removeFrom := if RemovePrev(prevChar, nextChar) then h - 1 else h;
            var removeTo := if RemoveNext(prevChar, nextChar) then e + 1 else e;
            && 0 <= removeFrom
            && removeTo <= |raw|
            && ExtractTag(raw) == Some(Extraction(raw[h + 1..e], raw[..removeFrom] + raw[removeTo..], removeFrom))
  {
    var r := FirstMatchFrom(raw, 0);
    assert r.Some?;
    assert r.value == h;
    MatchEndIsRunEnd(raw, h, e);
  }

  /** How much text the cut removes: the `#`, the tag and each neighbour a flag names. */
  lemma ExtractTagLength(raw: string, h: nat, e: nat)
    requires MatchesAt(raw, h, e)
    requires forall h', e' :: MatchesAt(raw, h', e') ==> h <= h'
    ensures var prevChar, nextChar := PrevChar(raw, h), raw[e];
            ExtractTag(raw).Some? &&
            |ExtractTag(raw).value.text| ==
              |raw| - (|ExtractTag(raw).value.tag| + 1
                       + (if RemovePrev(prevChar, nextChar) then 1 else 0)
                       + (if RemoveNext(prevChar, nextChar) then 1 else 0))
  {
    ExtractTagAtFirstMatch(raw, h, e);
  }
}

module TagExamples {
  import opened Wrappers
  import opened Tags

  /** A match whose `#` is the first `#` of the text is the first match. */
  lemma FirstHashIsFirstMatch(raw: string, h: nat, e: nat)
    requires MatchesAt(raw, h, e)
    requires '#' !in raw[..h]
    ensures forall h', e' :: MatchesAt(raw, h', e') ==> h <= h'
  {
  }

  /** The pattern matches at a `#` that starts a word and is followed by a tag and a non-tag character. */
  lemma MatchOfTag(raw: string, h: nat, e: nat)
    requires h + 1 < e < |raw| && raw[h] == '#'
    requires h == 0 || !IsTagChar(raw[h - 1])
    requires forall c :: c in raw[h + 1..e] ==> IsTagChar(c)
    requires !IsTagChar(raw[e])
    ensures MatchesAt(raw, h, e)
  {
    forall i | h + 1 <= i < e ensures IsTagChar(raw[i]) {
      assert raw[h + 1..e][i - h - 1] == raw[i];
    }
  }

  /** A tag on its own line: the newline before it stays, the one after it goes. */
  lemma ExtractTagOwnLine()
    ensures ExtractTag("hello\n#work\n") == Some(Extraction("work", "hello\n", 6))
  {
    var raw := "hello\n#work\n";
    assert raw[7..11] == "work";
    MatchOfTag(raw, 6, 11);
    assert raw[..6] == "hello\n";
    FirstHashIsFirstMatch(raw, 6, 11);
    ExtractTagAtFirstMatch(raw, 6, 11);
    assert PrevChar(raw, 6) == "\n" && raw[11] == '\n';
    assert raw[7..11] == "work" && raw[..6] + raw[12..] == "hello\n";
  }

  /** A tag at the end, after the sentinel space: the space after it goes. */
  lemma ExtractTagAtEnd()
    ensures ExtractTag("buy milk #groceries ") == Some(Extraction("groceries", "buy milk ", 9))
  {
    var raw := "buy milk #groceries ";
    assert raw[10..19] == "groceries";
    MatchOfTag(raw, 9, 19);
    assert raw[..9] == "buy milk ";
    FirstHashIsFirstMatch(raw, 9, 19);
    ExtractTagAtFirstMatch(raw, 9, 19);
    assert PrevChar(raw, 9) == " " && raw[19] == ' ';
    assert raw[10..19] == "groceries" && raw[..9] + raw[20..] == "buy milk ";
  }

  /** A tag between a space and a newline: the space before it goes. */
  lemma ExtractTagBeforeNewline()
    ensures ExtractTag("a #b\nc") == Some(Extraction("b", "a\nc", 1))
  {
    var raw := "a #b\nc";
    assert raw[3..4] == "b";
    MatchOfTag(raw, 2, 4);
    assert raw[..2] == "a ";
    FirstHashIsFirstMatch(raw, 2, 4);
    ExtractTagAtFirstMatch(raw, 2, 4);
    assert PrevChar(raw, 2) == " " && raw[4] == '\n';
    assert raw[3..4] == "b" && raw[..1] + raw[4..] == "a\nc";
  }

  /** Text without a `#` has no tag. */
  lemma NoHashNoTag(raw: string)
    requires '#' !in raw
    ensures ExtractTag(raw) == None
  {
  }

  lemma ExtractTagNone()
    ensures ExtractTag("no tags here") == None
  {
    NoHashNoTag("no tags here");
  }
}
