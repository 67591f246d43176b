/**
 * String helpers of the exporter: the `\s` character class and `trim()` of
 * ECMAScript, the first line of a text, the last path segment of a URL, the
 * filename sanitiser `replace(/[^a-z0-9]/gi, '_').slice(0, 50)` and the
 * removal of a trailing "edit" label from a user message.
 *
 * A `char` is a Unicode scalar value; a JavaScript string is a sequence of
 * UTF-16 code units, in which a character outside the Basic Multilingual
 * Plane takes two. Every character these helpers look for lies in that
 * plane, so only the sanitiser, which counts and replaces code units, has
 * to tell the two apart.
 */
module Text {

  /** ECMAScript WhiteSpace and LineTerminator code points: what `\s` matches and `trim()` removes. */
  predicate IsSpace(c: char) {
    c == '\t' || c == '\n' || c == '\U{000B}' || c == '\U{000C}' || c == '\r' || c == ' '
    || c == '\U{00A0}' || c == '\U{1680}' || ('\U{2000}' <= c <= '\U{200A}')
    || c == '\U{2028}' || c == '\U{2029}' || c == '\U{202F}' || c == '\U{205F}'
    || c == '\U{3000}' || c == '\U{FEFF}'
  }

  /** Every character of `s` in positions `lo` up to (not including) `hi` is white space. */
  predicate SpaceBetween(s: string, lo: int, hi: int)
    requires 0 <= lo <= hi <= |s|
  {
    forall k {:trigger IsSpace(s[k])} :: lo <= k < hi ==> IsSpace(s[k])
  }

  /** The first position at or after `i` that does not hold white space (or `|s|`). */
  function SkipSpace(s: string, i: nat): (k: nat)
    requires i <= |s|
    ensures i <= k <= |s| && SpaceBetween(s, i, k)
    ensures k < |s| ==> !IsSpace(s[k])
    decreases |s| - i
  {
    if i < |s| && IsSpace(s[i]) then SkipSpace(s, i + 1) else i
  }

  /** The start of the run of white space that ends at `j`, looking no further back than `lo`. */
  function SkipSpaceBack(s: string, lo: nat, j: nat): (k: nat)
    requires lo <= j <= |s|
    ensures lo <= k <= j && SpaceBetween(s, k, j)
    ensures k > lo ==> !IsSpace(s[k - 1])
    decreases j - lo
  {
    if j > lo && IsSpace(s[j - 1]) then SkipSpaceBack(s, lo, j - 1) else j
  }

  /** The prefix of `s` before its trailing white space: where the `\s*$` run of the pattern `/edit\s*$/i` begins. */
  function TrimEnd(s: string): (r: string)
    ensures |r| <= |s| && r == s[..|r|]
    ensures SpaceBetween(s, |r|, |s|)
    ensures r == [] || !IsSpace(r[|r| - 1])
  {
    s[..SkipSpaceBack(s, 0, |s|)]
  }

  /** `trim()`: the infix of `s` between a white-space prefix and a white-space suffix. */
  function Trim(s: string): (r: string)
    ensures var a := SkipSpace(s, 0);
      a + |r| <= |s| && r == s[a..a + |r|] && SpaceBetween(s, 0, a) && SpaceBetween(s, a + |r|, |s|)
    ensures r == [] || (!IsSpace(r[0]) && !IsSpace(r[|r| - 1]))
  {
    var a := SkipSpace(s, 0);
    s[a..SkipSpaceBack(s, a, |s|)]
  }

  /** `s.split('\n')[0]`: everything before the first line feed. */
  function FirstLine(s: string): (r: string)
    ensures '\n' !in r
    ensures |r| <= |s| && r == s[..|r|]
    ensures |r| < |s| ==> s[|r|] == '\n'
  {
    if s == [] || s[0] == '\n' then [] else [s[0]] + FirstLine(s[1..])
  }

  /** `url.split('/').pop()`: everything after the last slash, or all of `url` when it has none. */
  function LastSegment(url: string): (id: string)
    ensures '/' !in id
    ensures |id| <= |url| && id == url[|url| - |id|..]
    ensures |id| < |url| ==> url[|url| - |id| - 1] == '/'
  {
    if url == [] || url[|url| - 1] == '/' then []
    else LastSegment(url[..|url| - 1]) + [url[|url| - 1]]
  }

  predicate IsAsciiAlnum(c: char) {
    'a' <= c <= 'z' || 'A' <= c <= 'Z' || '0' <= c <= '9'
  }

  /** A character outside the Basic Multilingual Plane: a surrogate pair, two code units, in a JavaScript string. */
  predicate IsAstral(c: char) {
    c as int > 0xFFFF
  }

  /** No character of `s` lies outside the Basic Multilingual Plane. */
  predicate InBmp(s: string) {
    forall k :: 0 <= k < |s| ==> !IsAstral(s[k])
  }

  /** The number of UTF-16 code units of one character. */
  function Units(c: char): nat {
    if IsAstral(c) then 2 else 1
  }

  /** The `length` of `s` in JavaScript: its number of UTF-16 code units. */
  function CodeUnits(s: string): (n: nat)
    ensures |s| <= n <= 2 * |s|
    ensures InBmp(s) ==> n == |s|
  {
    if s == [] then 0 else Units(s[0]) + CodeUnits(s[1..])
  }

  /** What the pattern leaves of one character: itself when allowed, else one underscore per code unit. */
  function Replacement(c: char): (r: string)
    ensures |r| == Units(c)
    ensures forall i :: 0 <= i < |r| ==> IsAsciiAlnum(r[i]) || r[i] == '_'
  {
    if IsAsciiAlnum(c) then [c] else if IsAstral(c) then "__" else "_"
  }

  /**
   * `s.replace(/[^a-z0-9]/gi, '_')`: the pattern has no `u` flag, so it works
   * on code units, and each code unit outside [A-Za-z0-9] becomes one
   * underscore; a character outside the Basic Multilingual Plane becomes two.
   */
  function ReplaceUnsafe(s: string): (r: string)
    ensures |r| == CodeUnits(s)
    ensures forall i :: 0 <= i < |r| ==> IsAsciiAlnum(r[i]) || r[i] == '_'
  {
    if s == [] then [] else Replacement(s[0]) + ReplaceUnsafe(s[1..])
  }

  /** The replacement works character by character, so it distributes over concatenation. */
  lemma {:induction false} ReplaceUnsafeAppend(a: string, b: string)
    ensures ReplaceUnsafe(a + b) == ReplaceUnsafe(a) + ReplaceUnsafe(b)
  {
    if a == [] {
      assert a + b == b;
    } else {
      assert (a + b)[1..] == a[1..] + b;
      ReplaceUnsafeAppend(a[1..], b);
      assert ReplaceUnsafe(a + b) == Replacement(a[0]) + (ReplaceUnsafe(a[1..]) + ReplaceUnsafe(b));
    }
  }

  /**
   * Character `k` of `s` starts at code unit `CodeUnits(s[..k])` of the
   * replaced text: kept there when it is an ASCII letter or digit, else an
   * underscore there (and at the next unit too for a surrogate pair).
   */
  lemma ReplaceUnsafeAt(s: string, k: nat)
    requires k < |s|
    ensures var r, p := ReplaceUnsafe(s), CodeUnits(s[..k]);
      p < |r|
      && (IsAsciiAlnum(s[k]) ==> r[p] == s[k])
      && (!IsAsciiAlnum(s[k]) ==> r[p] == '_')
      && (IsAstral(s[k]) ==> p + 1 < |r| && r[p + 1] == '_')
  {
    var before, rest := s[..k], s[k..];
    assert s == before + rest;
    ReplaceUnsafeAppend(before, rest);
    assert ReplaceUnsafe(rest) == Replacement(s[k]) + ReplaceUnsafe(rest[1..]);
  }

  /** In the Basic Multilingual Plane the replacement is one-for-one: each character is kept or becomes `_` in place. */
  lemma ReplaceUnsafeInBmp(s: string)
    requires InBmp(s)
    ensures |ReplaceUnsafe(s)| == |s|
    ensures forall i :: 0 <= i < |s| ==> ReplaceUnsafe(s)[i] == if IsAsciiAlnum(s[i]) then s[i] else '_'
  {
    forall i | 0 <= i < |s|
      ensures ReplaceUnsafe(s)[i] == if IsAsciiAlnum(s[i]) then s[i] else '_'
    {
      ReplaceUnsafeAt(s, i);
      assert InBmp(s[..i]);
    }
  }

  const MaxTitleLength: nat := 50

  /**
   * The sanitised title used in file names: replacement, then `.slice(0, 50)`,
   * which counts code units; the replaced text is ASCII, one code unit per character.
   */
  function Sanitize(title: string): (r: string)
    ensures |r| == if CodeUnits(title) < MaxTitleLength then CodeUnits(title) else MaxTitleLength
    ensures forall i :: 0 <= i < |r| ==> IsAsciiAlnum(r[i]) || r[i] == '_'
    ensures r == ReplaceUnsafe(title)[..|r|]
    ensures InBmp(title) ==> forall i :: 0 <= i < |r| ==> r[i] == if IsAsciiAlnum(title[i]) then title[i] else '_'
  {
    var full := ReplaceUnsafe(title);
    var n := if |full| < MaxTitleLength then |full| else MaxTitleLength;
    if InBmp(title) then ReplaceUnsafeInBmp(title); full[..n] else full[..n]
  }

  lemma SanitizeIdempotent(title: string)
    ensures Sanitize(Sanitize(title)) == Sanitize(title)
  {
    var once := Sanitize(title);
    var twice := Sanitize(once);
    assert |twice| == |once|;
    forall i | 0 <= i < |once|
      ensures twice[i] == once[i]
    {
      if !IsAsciiAlnum(once[i]) {
        assert once[i] == '_';
      }
    }
  }

  /** An emoji is a surrogate pair, so it becomes two underscores and counts two toward the 50. */
  lemma SanitizeSurrogatePair()
    ensures Sanitize("a\U{1F600}") == "a__"
  {
    assert CodeUnits("a\U{1F600}") == 3;
  }

  /** A case-insensitive "edit" starts at position `i` of `s`. */
  predicate IsEditAt(s: string, i: int) {
    0 <= i && i + 4 <= |s|
    && (s[i] == 'e' || s[i] == 'E') && (s[i + 1] == 'd' || s[i + 1] == 'D')
    && (s[i + 2] == 'i' || s[i + 2] == 'I') && (s[i + 3] == 't' || s[i + 3] == 'T')
  }

  /** The regular expression `/edit\s*$/i` matches `s` starting at position `i`. */
  predicate EditSuffixAt(s: string, i: int) {
    IsEditAt(s, i) && SpaceBetween(s, i + 4, |s|)
  }

  /**
   * `s.replace(/edit\s*$/i, '')`: the match, if any, is removed. A match
   * must end where the trailing white space begins, so it is looked for there.
   */
  function StripEditSuffix(s: string): (r: string)
    ensures forall i :: EditSuffixAt(s, i) ==> r == s[..i]
    ensures (forall i :: !EditSuffixAt(s, i)) ==> r == s
  {
    var k := |TrimEnd(s)|;
    MatchEndsAtTrailingSpace(s);
    if k >= 4 && IsEditAt(s, k - 4) then
      assert EditSuffixAt(s, k - 4);
      s[..k - 4]
    else
      s
  }

  /** A match of `/edit\s*$/i` ends exactly where the trailing white space of `s` begins, so there is at most one. */
  lemma MatchEndsAtTrailingSpace(s: string)
    ensures forall i :: EditSuffixAt(s, i) ==> i == |TrimEnd(s)| - 4
  {
    var k := |TrimEnd(s)|;
    forall i | EditSuffixAt(s, i)
      ensures i == k - 4
    {
      assert !IsSpace(s[i + 3]);
    }
  }

  /** User-message cleanup: `text.replace(/edit\s*$/i, '').trim()`. */
  function CleanUserText(text: string): (r: string)
    ensures r == [] || (!IsSpace(r[0]) && !IsSpace(r[|r| - 1]))
  {
    Trim(StripEditSuffix(text))
  }

  /** The cleanup removes a trailing case-insensitive "edit" plus white space when present, then trims. */
  lemma CleanUserTextRemovesEdit(text: string)
    ensures forall i :: EditSuffixAt(text, i) ==> CleanUserText(text) == Trim(text[..i])
    ensures (forall i :: !EditSuffixAt(text, i)) ==> CleanUserText(text) == Trim(text)
  {
  }

  /** The "Edit" label read after the query text is removed together with the white space around it. */
  lemma CleanUserTextDropsEditLabel()
    ensures CleanUserText("Hi\nEdit ") == "Hi"
  {
    var s := "Hi\nEdit ";
    assert EditSuffixAt(s, 3);
    assert s[..3] == "Hi\n";
  }

  /** The pattern has no word boundary: a query ending in "credit" loses its last four letters. */
  lemma CleanUserTextCutsWordEnding()
    ensures CleanUserText("my credit") == "my cr"
  {
    var s := "my credit";
    assert EditSuffixAt(s, 5);
    assert s[..5] == "my cr";
  }
}
