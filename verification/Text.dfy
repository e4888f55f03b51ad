/** Results, and the Python string operations the SCIM code is written with. */
module Text {

  datatype Option<+T> = None | Some(value: T)

  datatype Result<+T, +E> = Ok(value: T) | Err(error: E)

  /** Exactly the characters Python's `str.isspace` and the regex class \s accept. */
  predicate IsSpace(c: char) {
    var n := c as int;
    || 0x09 <= n <= 0x0D || 0x1C <= n <= 0x20 || n == 0x85 || n == 0xA0 || n == 0x1680
    || 0x2000 <= n <= 0x200A || n == 0x2028 || n == 0x2029 || n == 0x202F || n == 0x205F || n == 0x3000
  }

  predicate AllSpace(s: string) {
    forall i :: 0 <= i < |s| ==> IsSpace(s[i])
  }

  /** No whitespace at either end: what `str.strip` returns unchanged. */
  predicate Trimmed(s: string) {
    s == "" || (!IsSpace(s[0]) && !IsSpace(s[|s| - 1]))
  }

  function LStrip(s: string): string {
    if s != "" && IsSpace(s[0]) then LStrip(s[1..]) else s
  }

  function RStrip(s: string): string {
    if s != "" && IsSpace(s[|s| - 1]) then RStrip(s[..|s| - 1]) else s
  }

  function Strip(s: string): string {
    RStrip(LStrip(s))
  }

  lemma {:induction false} LStripGap(gap: string, s: string)
    requires AllSpace(gap)
    requires s == "" || !IsSpace(s[0])
    ensures LStrip(gap + s) == s
  {
    if gap == "" {
      assert gap + s == s;
    } else {
      assert (gap + s)[1..] == gap[1..] + s;
      LStripGap(gap[1..], s);
    }
  }

  lemma {:induction false} RStripGap(s: string, gap: string)
    requires AllSpace(gap)
    requires s == "" || !IsSpace(s[|s| - 1])
    ensures RStrip(s + gap) == s
  {
    if gap == "" {
      assert s + gap == s;
    } else {
      var k := |gap| - 1;
      assert (s + gap)[..|s + gap| - 1] == s + gap[..k];
      RStripGap(s, gap[..k]);
    }
  }

  /** `strip` removes exactly the surrounding whitespace. */
  lemma {:induction false} StripGaps(before: string, core: string, after: string)
    requires AllSpace(before) && AllSpace(after) && Trimmed(core)
    ensures Strip(before + core + after) == core
  {
    if core == "" {
      assert before + core + after == (before + after) + "";
      LStripGap(before + after, "");
    } else {
      assert before + core + after == before + (core + after);
      LStripGap(before, core + after);
      RStripGap(core, after);
    }
  }

  lemma {:induction false} StripTrimmed(s: string)
    requires Trimmed(s)
    ensures Strip(s) == s
  {
    StripGaps("", s, "");
    assert "" + s + "" == s;
  }

  /** Every text is a trimmed core in whitespace. */
  lemma {:induction false} Padding(s: string) returns (before: string, core: string, after: string)
    ensures s == before + core + after && AllSpace(before) && AllSpace(after) && Trimmed(core)
    ensures core == "" <==> AllSpace(s)
  {
    if s == "" {
      before, core, after := "", "", "";
    } else if IsSpace(s[0]) {
      before, core, after := Padding(s[1..]);
      assert s == ([s[0]] + before) + core + after by { assert s == [s[0]] + s[1..]; }
      before := [s[0]] + before;
    } else if IsSpace(s[|s| - 1]) {
      var k := |s| - 1;
      before, core, after := Padding(s[..k]);
      assert s == before + core + (after + [s[k]]) by { assert s == s[..k] + [s[k]]; }
      after := after + [s[k]];
      assert !IsSpace(s[0]);
    } else {
      before, core, after := "", s, "";
    }
  }

  /** Python's lower() on ASCII text, which is all an attribute path or keyword can contain. */
  function LowerAsciiChar(c: char): char {
    if 'A' <= c <= 'Z' then ((c as int) + 32) as char else c
  }

  function LowerAscii(s: string): string {
    MapChars(s, LowerAsciiChar)
  }

  /** `lower()` as a map over single characters. */
  function MapChars(s: string, f: char -> char): (r: string)
    ensures |r| == |s|
    ensures forall i :: 0 <= i < |s| ==> r[i] == f(s[i])
  {
    seq(|s|, i requires 0 <= i < |s| => f(s[i]))
  }

  /** `str.replace`: every non-overlapping occurrence, scanning from the left. */
  function Replace(s: string, what: string, sub: string): string
    requires what != ""
  {
    if s == "" then ""
    else if what <= s then sub + Replace(s[|what|..], what, sub)
    else [s[0]] + Replace(s[1..], what, sub)
  }

  predicate HasPrefix(s: string, prefix: string) {
    prefix <= s
  }

  predicate HasSuffix(s: string, suffix: string) {
    |suffix| <= |s| && s[|s| - |suffix|..] == suffix
  }

  predicate Contains(s: string, part: string) {
    exists i :: 0 <= i <= |s| && HasPrefix(s[i..], part)
  }

  lemma {:induction false} SliceOfSlice<T>(s: seq<T>, i: nat, j: nat, m: nat, n: nat)
    requires i <= j <= |s| && m <= n <= j - i
    ensures s[i..j][m..n] == s[i + m..i + n]
  {
    var t := s[i..j];
    assert |t[m..n]| == n - m == |s[i + m..i + n]|;
    forall k | 0 <= k < n - m ensures t[m..n][k] == s[i + m..i + n][k] {
      assert t[m..n][k] == t[m + k] == s[i + (m + k)];
    }
  }

  predicate NoDuplicates<T(==)>(s: seq<T>) {
    forall i, j :: 0 <= i < j < |s| ==> s[i] != s[j]
  }

  /** What `strip` leaves is blank exactly for blank text, and never padded. */
  lemma {:induction false} StripBlank(s: string)
    ensures Strip(s) == "" <==> AllSpace(s)
    ensures Trimmed(Strip(s))
  {
    var before, core, after := Padding(s);
    StripGaps(before, core, after);
  }

  /** The ASCII whitespace, and the rest: two controls, the no-break space, and Unicode's space separators. */
  lemma {:induction false} SpacesAre(c: char)
    ensures c as int < 128 ==>
              (IsSpace(c) <==> c in {'\t', '\n', '\U{000B}', '\U{000C}', '\r', '\U{001C}', '\U{001D}', '\U{001E}', '\U{001F}', ' '})
    ensures c as int >= 128 ==>
              (IsSpace(c) <==> c in {'\U{0085}', '\U{00A0}', '\U{1680}', '\U{2028}', '\U{2029}', '\U{202F}', '\U{205F}', '\U{3000}'}
                               || c in {'\U{2000}', '\U{2001}', '\U{2002}', '\U{2003}', '\U{2004}', '\U{2005}', '\U{2006}',
                                        '\U{2007}', '\U{2008}', '\U{2009}', '\U{200A}'})
  {
  }
}
