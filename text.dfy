/** Character classes and the two string operations applied to scraped
    cell text: Python's `str.strip()` and the first-token split that the
    company column goes through (`re.split(r"\s|\[", s, maxsplit=1)[0]`). */
module Text {

  /** Python's whitespace class, the one shared by `str.strip()` and the
      regular-expression class `\s` on `str` patterns: the ASCII controls
      U+0009..U+000D and U+001C..U+001F, the space, NEL, NO-BREAK SPACE and
      the Unicode space, line and paragraph separators. */
  predicate IsSpace(c: char) {
    || ('\t' <= c <= '\r')
    || ('\U{001C}' <= c <= '\U{001F}')
    || c == ' '
    || c == '\U{0085}'
    || c == '\U{00A0}'
    || c == '\U{1680}'
    || ('\U{2000}' <= c <= '\U{200A}')
    || c == '\U{2028}'
    || c == '\U{2029}'
    || c == '\U{202F}'
    || c == '\U{205F}'
    || c == '\U{3000}'
  }

  /** A character the pattern `\s|\[` matches. */
  predicate IsDelim(c: char) {
    IsSpace(c) || c == '['
  }

  ghost predicate AllSpace(s: string) {
    forall i :: 0 <= i < |s| ==> IsSpace(s[i])
  }

  ghost predicate NoDelim(s: string) {
    forall i :: 0 <= i < |s| ==> !IsDelim(s[i])
  }

  /** Neither starts nor ends with whitespace: what `str.strip()` returns. */
  ghost predicate Trimmed(s: string) {
    s == [] || (!IsSpace(s[0]) && !IsSpace(s[|s| - 1]))
  }

  // ---------------------------------------------------------------------
  // str.strip()

  /** `str.lstrip()`: drops the leading whitespace and keeps the rest. */
  function TrimStart(s: string): string
  {
    if s != [] && IsSpace(s[0]) then TrimStart(s[1..]) else s
  }

  /** `str.rstrip()`: drops the trailing whitespace and keeps the rest. */
  function TrimEnd(s: string): string
  {
    if s != [] && IsSpace(s[|s| - 1]) then TrimEnd(s[..|s| - 1]) else s
  }

  /** What `TrimStart` takes off is whitespace, and what it keeps is a
      suffix of `s` that does not start with whitespace. */
  lemma {:induction false} TrimStartSpec(s: string)
    ensures var r := TrimStart(s);
            && |r| <= |s| && r == s[|s| - |r|..]
            && AllSpace(s[..|s| - |r|])
            && (r == [] || !IsSpace(r[0]))
  {
    if s != [] && IsSpace(s[0]) {
      TrimStartSpec(s[1..]);
      var r := TrimStart(s[1..]);
      assert s[..|s| - |r|] == [s[0]] + s[1..][..|s| - 1 - |r|];
    }
  }

  /** What `TrimEnd` takes off is whitespace, and what it keeps is a prefix
      of `s` that does not end with whitespace. */
  lemma {:induction false} TrimEndSpec(s: string)
    ensures var r := TrimEnd(s);
            && r <= s
            && AllSpace(s[|r|..])
            && (r == [] || !IsSpace(r[|r| - 1]))
  {
    if s != [] && IsSpace(s[|s| - 1]) {
      TrimEndSpec(s[..|s| - 1]);
      var r := TrimEnd(s[..|s| - 1]);
      assert s[|r|..] == s[..|s| - 1][|r|..] + [s[|s| - 1]];
    }
  }

  /** `str.strip()`, applied to the text of every header and data cell. */
  function Strip(s: string): (r: string)
    ensures Trimmed(r)
    ensures |r| <= |s|
  {
    TrimStartSpec(s);
    TrimEndSpec(TrimStart(s));
    var t := TrimStart(s);
    var r := TrimEnd(t);
    assert r != [] ==> r[0] == t[0];
    r
  }

  /** Taking off the leading whitespace of `p + x` leaves `x` when `p` is
      all whitespace and `x` does not start with whitespace. */
  lemma {:induction false} TrimStartOfSpacePrefix(p: string, x: string)
    requires AllSpace(p)
    requires x == [] || !IsSpace(x[0])
    ensures TrimStart(p + x) == x
  {
    if p != [] {
      assert (p + x)[1..] == p[1..] + x;
      TrimStartOfSpacePrefix(p[1..], x);
    }
  }

  /** Taking off the trailing whitespace of `x + q` leaves `x` when `q` is
      all whitespace and `x` does not end with whitespace. */
  lemma {:induction false} TrimEndOfSpaceSuffix(x: string, q: string)
    requires AllSpace(q)
    requires x == [] || !IsSpace(x[|x| - 1])
    ensures TrimEnd(x + q) == x
  {
    if q != [] {
      assert (x + q)[..|x + q| - 1] == x + q[..|q| - 1];
      TrimEndOfSpaceSuffix(x, q[..|q| - 1]);
    }
  }

  /** `Strip(s)` is the middle of `s` between a whitespace-only prefix and a
      whitespace-only suffix. */
  lemma StripSplits(s: string) returns (pre: string, post: string)
    ensures s == pre + Strip(s) + post
    ensures AllSpace(pre) && AllSpace(post)
  {
    var t := TrimStart(s);
    var r := TrimEnd(t);
    TrimStartSpec(s);
    TrimEndSpec(t);
    pre, post := s[..|s| - |t|], t[|r|..];
    Around(s, t, r);
  }

  /** A prefix `r` of a suffix `t` of `s` sits between the two slices it
      leaves over. */
  lemma Around(s: string, t: string, r: string)
    requires |t| <= |s| && t == s[|s| - |t|..]
    requires r <= t
    ensures s == s[..|s| - |t|] + r + t[|r|..]
  {
    assert t == r + t[|r|..];
    assert s == s[..|s| - |t|] + t;
  }

  /** Conversely, any whitespace-only prefix and suffix around a trimmed
      middle are exactly what `Strip` takes off. */
  lemma StripUnique(p: string, m: string, q: string)
    requires AllSpace(p) && AllSpace(q) && Trimmed(m)
    ensures Strip(p + m + q) == m
  {
    if m == [] {
      var s := p + q;
      assert p + m + q == s;
      TrimStartSpec(s);
    } else {
      assert p + m + q == p + (m + q);
      TrimStartOfSpacePrefix(p, m + q);
      TrimEndOfSpaceSuffix(m, q);
    }
  }

  /** Stripping text that is already stripped changes nothing. */
  lemma StripTrimmed(s: string)
    requires Trimmed(s)
    ensures Strip(s) == s
  {
    assert [] + s + [] == s;
    StripUnique([], s, []);
  }

  /** `str.strip()` is idempotent. */
  lemma StripIdempotent(s: string)
    ensures Strip(Strip(s)) == Strip(s)
  {
    StripTrimmed(Strip(s));
  }

  // ---------------------------------------------------------------------
  // The company-name split

  /** Index of the first character `\s|\[` matches, or `|s|` when none does. */
  function FirstDelim(s: string): nat
  {
    if s == [] || IsDelim(s[0]) then 0 else 1 + FirstDelim(s[1..])
  }

  /** `FirstDelim` lands on the first delimiter: everything before it is
      free of delimiters, and it is a delimiter itself unless it is `|s|`. */
  lemma {:induction false} FirstDelimSpec(s: string)
    ensures var i := FirstDelim(s);
            && i <= |s|
            && NoDelim(s[..i])
            && (i < |s| ==> IsDelim(s[i]))
  {
    if s != [] && !IsDelim(s[0]) {
      FirstDelimSpec(s[1..]);
      var i := FirstDelim(s);
      assert s[..i] == [s[0]] + s[1..][..i - 1];
    }
  }

  /** `re.split(r"\s|\[", s, maxsplit=1)`: the whole string when nothing
      matches, otherwise the part before the first match and the part
      after it, the matched character itself being dropped. */
  function SplitOnce(s: string): seq<string>
  {
    FirstDelimSpec(s);
    var i := FirstDelim(s);
    if i == |s| then [s] else [s[..i], s[i + 1..]]
  }

  /** The split has one part exactly when there is no delimiter, and then
      that part is the whole string; otherwise the first part is free of
      delimiters and the parts joined by the matched character give back
      the string. */
  lemma SplitOnceSpec(s: string)
    ensures var parts := SplitOnce(s);
            && (|parts| == 1 || |parts| == 2)
            && (|parts| == 1 <==> NoDelim(s))
            && (|parts| == 1 ==> parts[0] == s)
            && (|parts| == 2 ==>
                  && NoDelim(parts[0])
                  && |parts[0]| < |s|
                  && IsDelim(s[|parts[0]|])
                  && s == parts[0] + [s[|parts[0]|]] + parts[1])
  {
    FirstDelimSpec(s);
    var i := FirstDelim(s);
    if i == |s| {
      assert s[..i] == s;
    } else {
      assert s == s[..i] + [s[i]] + s[i + 1..];
    }
  }

  /** `.str.split(r"\s|\[", n=1).str[0]` on one company value: the longest
      prefix free of whitespace and `[`, i.e. everything before the first
      delimiter, or the whole value when it has none. */
  function CleanName(s: string): (r: string)
    ensures r <= s
    ensures NoDelim(r)
    ensures |r| < |s| ==> IsDelim(s[|r|])
  {
    SplitOnceSpec(s);
    var parts := SplitOnce(s);
    assert parts[0] <= s by {
      if |parts| == 2 {
        assert s == parts[0] + ([s[|parts[0]|]] + parts[1]);
      }
    }
    parts[0]
  }

  /** A value with no whitespace and no `[` comes through unchanged. */
  lemma CleanNameNoDelim(s: string)
    requires NoDelim(s)
    ensures CleanName(s) == s
  {
  }

  /** The three facts of `CleanName`'s contract determine its result: any
      prefix of `s` without delimiters that stops at a delimiter or at the
      end of `s` is `CleanName(s)`. */
  lemma CleanNameUnique(s: string, r: string)
    requires r <= s
    requires NoDelim(r)
    requires |r| < |s| ==> IsDelim(s[|r|])
    ensures CleanName(s) == r
  {
    var c := CleanName(s);
    assert c == s[..|c|] && r == s[..|r|];
  }

  /** Cleaning an already-cleaned company value is a no-op. */
  lemma CleanNameIdempotent(s: string)
    ensures CleanName(CleanName(s)) == CleanName(s)
  {
    CleanNameNoDelim(CleanName(s));
  }

  /** The cleaned value of a stripped cell is itself stripped, so that the
      stripping and cleaning stages can be applied again without effect. */
  lemma CleanNameTrimmed(s: string)
    ensures Trimmed(CleanName(s))
  {
    var r := CleanName(s);
    if r != [] {
      assert !IsDelim(r[0]) && !IsDelim(r[|r| - 1]);
    }
  }

  /** Worked example: a name followed by a suffix and a footnote marker. */
  lemma CleanNameFootnoted(s: string)
    requires s == "ABC PLC [NOTE]"
    ensures CleanName(s) == "ABC"
  {
    assert s[..3] == "ABC" && s[3] == ' ';
    CleanNameUnique(s, "ABC");
  }

  /** Worked example: a bracket directly after the name also cuts. */
  lemma CleanNameBracket(s: string)
    requires s == "DANGCEM[BLS]"
    ensures CleanName(s) == "DANGCEM"
  {
    assert s[..7] == "DANGCEM" && s[7] == '[';
    CleanNameUnique(s, "DANGCEM");
  }

  /** Worked example: a bare ticker is kept whole. */
  lemma CleanNameBare(s: string)
    requires s == "XYZ"
    ensures CleanName(s) == s
  {
    CleanNameNoDelim(s);
  }
}
