/** The java.lang.String operations the services rely on, on `seq<char>`.
    Case mapping covers ASCII letters only. */
module JavaText {
  import opened Common

  // ---------------------------------------------------------------- trim

  /** `String.trim()` removes every leading and trailing char <= U+0020. */
  predicate Trimmable(c: char) { c <= ' ' }

  function TrimStart(s: string): (r: string)
    ensures |r| <= |s| && r == s[|s| - |r|..]
    ensures |r| > 0 ==> !Trimmable(r[0])
    decreases |s|
  {
    if |s| > 0 && Trimmable(s[0]) then TrimStart(s[1..]) else s
  }

  function TrimEnd(s: string): (r: string)
    ensures |r| <= |s| && r == s[..|r|]
    ensures |r| > 0 ==> !Trimmable(r[|r| - 1])
    decreases |s|
  {
    if |s| > 0 && Trimmable(s[|s| - 1]) then TrimEnd(s[..|s| - 1]) else s
  }

  function Trim(s: string): string {
    TrimEnd(TrimStart(s))
  }

  lemma {:induction false} TrimStartAllTrimmable(s: string)
    ensures TrimStart(s) == "" <==> forall i :: 0 <= i < |s| ==> Trimmable(s[i])
    decreases |s|
  {
    if |s| > 0 && Trimmable(s[0]) {
      TrimStartAllTrimmable(s[1..]);
      assert forall i :: 1 <= i < |s| ==> s[i] == s[1..][i - 1];
    }
  }

  lemma {:induction false} TrimEndOfNonEmpty(s: string)
    requires |s| > 0 && !Trimmable(s[0])
    ensures |TrimEnd(s)| > 0
    decreases |s|
  {
    if Trimmable(s[|s| - 1]) {
      TrimEndOfNonEmpty(s[..|s| - 1]);
    }
  }

  /** A trimmed string is empty exactly when every char of the input is <= U+0020. */
  lemma TrimEmpty(s: string)
    ensures Trim(s) == "" <==> forall i :: 0 <= i < |s| ==> Trimmable(s[i])
  {
    TrimStartAllTrimmable(s);
    var t := TrimStart(s);
    if |t| > 0 {
      TrimEndOfNonEmpty(t);
    }
  }

  /** Trimming a string that starts and ends with a visible char changes nothing. */
  lemma TrimNoop(s: string)
    requires |s| > 0 && !Trimmable(s[0]) && !Trimmable(s[|s| - 1])
    ensures Trim(s) == s
  {
  }

  /** Trimming removes one trailing blank after a visible string. */
  lemma TrimTrailingSpace(s: string)
    requires |s| > 0 && !Trimmable(s[0]) && !Trimmable(s[|s| - 1])
    ensures Trim(s + " ") == s
  {
    var t := s + " ";
    assert t[0] == s[0];
    assert TrimStart(t) == t;
    assert t[..|t| - 1] == s;
    assert Trimmable(t[|t| - 1]);
    assert TrimEnd(t) == TrimEnd(s);
    assert TrimEnd(s) == s;
  }

  // ---------------------------------------------------------------- blank tests

  /** `Character.isWhitespace`, the test behind `String.isBlank()`. It differs
      from trim's test: U+0000..U+0008 are trimmed but are not whitespace, and
      the Unicode space separators (except the no-break ones) are whitespace. */
  predicate IsWhitespace(c: char) {
    var n := c as int;
    (0x09 <= n <= 0x0D) || (0x1C <= n <= 0x20) || n == 0x1680
    || (0x2000 <= n <= 0x2006) || (0x2008 <= n <= 0x200A)
    || n == 0x2028 || n == 0x2029 || n == 0x205F || n == 0x3000
  }

  /** `String.isBlank()`: empty or whitespace only. */
  predicate JavaIsBlank(s: string) {
    forall i :: 0 <= i < |s| ==> IsWhitespace(s[i])
  }

  /** `token == null || token.isBlank()`. */
  predicate NullOrBlank(s: Option<string>) {
    s.None? || JavaIsBlank(s.value)
  }

  // ---------------------------------------------------------------- case

  function UpperChar(c: char): char {
    if 'a' <= c <= 'z' then (c as int - 32) as char else c
  }

  function LowerChar(c: char): char {
    if 'A' <= c <= 'Z' then (c as int + 32) as char else c
  }

  function ToUpper(s: string): (r: string)
    ensures |r| == |s| && forall i :: 0 <= i < |s| ==> r[i] == UpperChar(s[i])
  {
    seq(|s|, i requires 0 <= i < |s| => UpperChar(s[i]))
  }

  function ToLower(s: string): (r: string)
    ensures |r| == |s| && forall i :: 0 <= i < |s| ==> r[i] == LowerChar(s[i])
  {
    seq(|s|, i requires 0 <= i < |s| => LowerChar(s[i]))
  }

  /** `a.equalsIgnoreCase(b)` for non-null strings. */
  predicate EqualsIgnoreCase(a: string, b: string) {
    ToLower(a) == ToLower(b)
  }

  /** `a.equalsIgnoreCase(b)` where the argument may be null (then false). */
  predicate EqualsIgnoreCaseOpt(a: string, b: Option<string>) {
    b.Some? && EqualsIgnoreCase(a, b.value)
  }

  lemma UpperNoop(s: string)
    requires forall i :: 0 <= i < |s| ==> !('a' <= s[i] <= 'z')
    ensures ToUpper(s) == s
  {
  }

  /** The helper `isBlank` of Service and DoctorService: null, empty after
      trim, or the text "null" in any letter case after trim. */
  predicate IsBlank(s: Option<string>) {
    s.None? || Trim(s.value) == "" || EqualsIgnoreCase("null", Trim(s.value))
  }

  predicate IsNullWord(t: string) {
    |t| == 4 && (t[0] == 'n' || t[0] == 'N') && (t[1] == 'u' || t[1] == 'U')
    && (t[2] == 'l' || t[2] == 'L') && (t[3] == 'l' || t[3] == 'L')
  }

  lemma LowerIsNull(t: string)
    ensures ToLower(t) == "null" <==> IsNullWord(t)
  {
    if IsNullWord(t) {
      assert ToLower(t) == "null";
    }
    if ToLower(t) == "null" {
      assert |t| == 4;
      assert LowerChar(t[0]) == 'n' && LowerChar(t[1]) == 'u';
      assert LowerChar(t[2]) == 'l' && LowerChar(t[3]) == 'l';
    }
  }

  /** `isBlank(s)` holds exactly for null, for strings made only of chars
      <= U+0020, and for strings that trim to "null" in any letter case. */
  lemma IsBlankCharacterised(s: Option<string>)
    ensures IsBlank(s) <==>
      s.None? || (forall i :: 0 <= i < |s.value| ==> Trimmable(s.value[i]))
      || IsNullWord(Trim(s.value))
  {
    if s.Some? {
      TrimEmpty(s.value);
      LowerIsNull(Trim(s.value));
      assert ToLower("null") == "null";
    }
  }

  // ---------------------------------------------------------------- search

  predicate EndsWith(s: string, suffix: string) {
    |suffix| <= |s| && s[|s| - |suffix|..] == suffix
  }

  /** `s.contains(sub)`. */
  predicate Contains(s: string, sub: string) {
    exists i :: 0 <= i <= |s| - |sub| && OccursAt(s, sub, i)
  }

  predicate OccursAt(s: string, sub: string, i: int)
    requires 0 <= i <= |s| - |sub|
  {
    s[i..i + |sub|] == sub
  }

  /** `s.replace(pat, rep)`: every non-overlapping occurrence, left to right. */
  function Replace(s: string, pat: string, rep: string): string
    requires |pat| > 0
    decreases |s|
  {
    if |s| < |pat| then s
    else if s[..|pat|] == pat then rep + Replace(s[|pat|..], pat, rep)
    else [s[0]] + Replace(s[1..], pat, rep)
  }

  /** A prefix that does not contain the pattern's first char passes
      through `replace` untouched. */
  lemma {:induction false} ReplaceSkipsPrefix(p: string, q: string, pat: string, rep: string)
    requires |pat| > 0 && pat[0] !in p
    ensures Replace(p + q, pat, rep) == p + Replace(q, pat, rep)
    decreases |p|
  {
    if |p| > 0 {
      var s := p + q;
      assert s[0] == p[0] != pat[0];
      if |s| >= |pat| {
        assert s[..|pat|] != pat;
      }
      assert s[1..] == p[1..] + q;
      ReplaceSkipsPrefix(p[1..], q, pat, rep);
    } else {
      assert p + q == q;
    }
  }

  lemma ReplaceAbsent(s: string, pat: string, rep: string)
    requires |pat| > 0 && pat[0] !in s
    ensures Replace(s, pat, rep) == s
  {
    ReplaceSkipsPrefix(s, "", pat, rep);
    assert s + "" == s;
  }

  // ---------------------------------------------------------------- split

  function IndexOf(s: string, c: char): (i: nat)
    requires c in s
    ensures i < |s| && s[i] == c && c !in s[..i]
  {
    if s[0] == c then 0
    else
      var j := IndexOf(s[1..], c);
      assert s[1..][..j] == s[1..j + 1];
      1 + j
  }

  /** Every field between separators, including empty ones. */
  function Fields(s: string, sep: char): (r: seq<string>)
    ensures |r| >= 1
    decreases |s|
  {
    if sep in s then
      var i := IndexOf(s, sep);
      [s[..i]] + Fields(s[i + 1..], sep)
    else [s]
  }

  function DropTrailingEmpty(parts: seq<string>): (r: seq<string>)
    ensures |r| <= |parts| && r == parts[..|r|]
    decreases |parts|
  {
    if |parts| > 0 && parts[|parts| - 1] == "" then DropTrailingEmpty(parts[..|parts| - 1])
    else parts
  }

  /** `s.split(":")`: if the separator does not occur the result is the
      string itself; otherwise trailing empty fields are removed. */
  function Split(s: string, sep: char): seq<string> {
    if sep !in s then [s] else DropTrailingEmpty(Fields(s, sep))
  }

  lemma FieldsCons(h: string, sep: char, x: string)
    requires sep !in h
    ensures Fields(h + [sep] + x, sep) == [h] + Fields(x, sep)
  {
    var s := h + [sep] + x;
    assert s[|h|] == sep;
    var i := IndexOf(s, sep);
    assert s[..|h|] == h;
    assert i == |h|;
    assert s[..i] == h;
    assert s[i + 1..] == x;
  }

  lemma {:induction false} DropKeepsNonEmpty(parts: seq<string>, j: nat)
    requires j < |parts| && parts[j] != ""
    ensures j < |DropTrailingEmpty(parts)|
    decreases |parts|
  {
    if parts[|parts| - 1] == "" {
      DropKeepsNonEmpty(parts[..|parts| - 1], j);
    }
  }
}
