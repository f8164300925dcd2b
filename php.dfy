/** The pieces of the PHP runtime that the admin panel relies on, stated over Dafny
    strings (sequences of Unicode scalar values) and bytes. */
module Php {

  datatype Option<+T> = None | Some(value: T)

  /** A value, or the message of the exception that was thrown instead. */
  datatype Result<+T> = Ok(value: T) | Err(message: string)

  newtype byte = x: int | 0 <= x < 256

  /** PHP's `empty()` on a string: true for "" and also for "0". */
  predicate IsEmpty(s: string)
    ensures IsEmpty(s) ==> |s| <= 1
  {
    s == "" || s == "0"
  }

  /** PHP truthiness of a nullable string column (`if ($row['image'])`). */
  predicate IsTruthy(v: Option<string>) {
    v.Some? && !IsEmpty(v.value)
  }

  predicate EndsWith(s: string, suffix: string) {
    |suffix| <= |s| && s[|s| - |suffix|..] == suffix
  }

  // ---------------------------------------------------------------- trim()

  /** The characters `trim()` strips by default: space, tab, LF, CR, NUL and vertical tab. */
  predicate IsTrimChar(c: char) {
    c == ' ' || c == '\t' || c == '\n' || c == '\r' || c == '\0' || c == '\U{B}'
  }

  /** The position of the first character at or after `i` that `trim()` keeps (or `|s|`). */
  function TrimStart(s: string, i: nat): (r: nat)
    requires i <= |s|
    ensures i <= r <= |s|
    ensures forall k :: i <= k < r ==> IsTrimChar(s[k])
    ensures r == |s| || !IsTrimChar(s[r])
    decreases |s| - i
  {
    if i < |s| && IsTrimChar(s[i]) then TrimStart(s, i + 1) else i
  }

  /** The position just past the last character before `j`, and not before `lo`, that
      `trim()` keeps (or `lo`). */
  function TrimEnd(s: string, lo: nat, j: nat): (r: nat)
    requires lo <= j <= |s|
    ensures lo <= r <= j
    ensures forall k :: r <= k < j ==> IsTrimChar(s[k])
    ensures r == lo || !IsTrimChar(s[r - 1])
  {
    if lo < j && IsTrimChar(s[j - 1]) then TrimEnd(s, lo, j - 1) else j
  }

  /** `trim($s)`: the contiguous part of `s` left once the default characters are
      stripped from both ends. */
  function Trim(s: string): (r: string)
    ensures r == [] || (!IsTrimChar(r[0]) && !IsTrimChar(r[|r| - 1]))
    ensures |r| <= |s|
  {
    var start := TrimStart(s, 0);
    s[start..TrimEnd(s, start, |s|)]
  }

  /** What trim() removes is only trim characters, from the two ends. */
  lemma {:induction false} TrimStrips(s: string)
    ensures StrippedAt(s, Trim(s), TrimStart(s, 0))
  {
    var start := TrimStart(s, 0);
    var end := TrimEnd(s, start, |s|);
    assert Trim(s) == s[start..end];
  }

  /** `r` is `s` with the characters before position `i` and after `r` removed, all of
      them trim characters. */
  predicate StrippedAt(s: string, r: string, i: int) {
    0 <= i <= |s| - |r| && r == s[i..i + |r|] &&
    (forall k :: 0 <= k < i ==> IsTrimChar(s[k])) &&
    (forall k :: i + |r| <= k < |s| ==> IsTrimChar(s[k]))
  }

  /** Trimming changes a string exactly when one of its ends is a trim character; so
      trimming twice is trimming once. */
  lemma {:induction false} TrimFixpoint(s: string)
    ensures Trim(s) == s <==> (s == [] || (!IsTrimChar(s[0]) && !IsTrimChar(s[|s| - 1])))
  {
    if s != [] && !IsTrimChar(s[0]) && !IsTrimChar(s[|s| - 1]) {
      assert TrimStart(s, 0) == 0;
      assert TrimEnd(s, 0, |s|) == |s|;
    }
  }

  lemma {:induction false} TrimIdempotent(s: string)
    ensures Trim(Trim(s)) == Trim(s)
  {
    TrimFixpoint(Trim(s));
  }

  // ---------------------------------------------------------------- strtolower()

  /** `strtolower()` (PHP 8): ASCII letters only, every other character unchanged. */
  function LowerChar(c: char): char {
    if 'A' <= c <= 'Z' then (c as int + 32) as char else c
  }

  function Lower(s: string): (r: string)
    ensures |r| == |s|
    ensures forall i :: 0 <= i < |s| ==> r[i] == LowerChar(s[i])
  {
    if s == [] then [] else [LowerChar(s[0])] + Lower(s[1..])
  }

  // ---------------------------------------------------------------- pathinfo()

  /** The position of the last `c` in `s`, if there is one. */
  function LastIndexOf(s: string, c: char): (r: Option<nat>)
    ensures r.Some? ==> r.value < |s| && s[r.value] == c && forall k :: r.value < k < |s| ==> s[k] != c
    ensures r.None? ==> forall k :: 0 <= k < |s| ==> s[k] != c
  {
    if s == [] then None
    else if s[|s| - 1] == c then Some(|s| - 1)
    else LastIndexOf(s[..|s| - 1], c)
  }

  /** The last path component: everything after the last '/'. */
  function Basename(path: string): (r: string)
    ensures EndsWith(path, r)
    ensures forall k :: 0 <= k < |r| ==> r[k] != '/'
  {
    match LastIndexOf(path, '/')
    case None => path
    case Some(i) => path[i + 1..]
  }

  /** The base name is as long as it can be: it is the whole path, or a '/' precedes it. */
  lemma {:induction false} BasenameMaximal(path: string)
    ensures |Basename(path)| == |path| || path[|path| - |Basename(path)| - 1] == '/'
  {
    match LastIndexOf(path, '/') {
      case None =>
      case Some(i) => assert |Basename(path)| == |path| - i - 1;
    }
  }

  /** `pathinfo($name, PATHINFO_EXTENSION)`: the text after the last '.' of the last path
      component, or "" when that component has no '.'. */
  function Extension(name: string): (r: string)
    ensures forall k :: 0 <= k < |r| ==> r[k] != '.' && r[k] != '/'
    ensures r != [] ==> EndsWith(Basename(name), "." + r)
  {
    var base := Basename(name);
    match LastIndexOf(base, '.')
    case None => ""
    case Some(i) =>
      var ext := base[i + 1..];
      assert forall k :: 0 <= k < |ext| ==> ext[k] == base[i + 1 + k];
      assert base[|base| - |"." + ext|..] == "." + ext;
      ext
  }

  /** The extension is empty exactly when the last path component has no '.' or ends in one. */
  lemma {:induction false} ExtensionEmpty(name: string)
    ensures Extension(name) == [] <==> LastIndexOf(Basename(name), '.').None? || Basename(name)[|Basename(name)| - 1] == '.'
  {
    var base := Basename(name);
    match LastIndexOf(base, '.') {
      case None =>
      case Some(i) =>
        assert Extension(name) == base[i + 1..];
        assert |base[i + 1..]| == |base| - i - 1;
    }
  }

  // ---------------------------------------------------------------- implode(), decimal

  /** `implode($sep, $parts)`. */
  function Implode(sep: string, parts: seq<string>): string {
    if parts == [] then ""
    else if |parts| == 1 then parts[0]
    else parts[0] + sep + Implode(sep, parts[1..])
  }

  /** The joined text begins with the first part and ends with the last. */
  lemma {:induction false} ImplodeEnds(sep: string, parts: seq<string>)
    requires parts != []
    ensures var r := Implode(sep, parts);
      |parts[0]| <= |r| && r[..|parts[0]|] == parts[0] && EndsWith(r, parts[|parts| - 1])
  {
    if |parts| > 1 {
      ImplodeEnds(sep, parts[1..]);
      var rest := Implode(sep, parts[1..]);
      var r := parts[0] + sep + rest;
      assert r[..|parts[0]|] == parts[0];
      assert r[|r| - |rest|..] == rest;
      assert parts[1..][|parts[1..]| - 1] == parts[|parts| - 1];
    }
  }

  function DigitChar(d: nat): (c: char)
    requires d < 10
    ensures '0' <= c <= '9'
  {
    ('0' as int + d) as char
  }

  /** The number a string of decimal digits spells. */
  function DigitsValue(s: string): nat
    requires forall i :: 0 <= i < |s| ==> '0' <= s[i] <= '9'
  {
    if s == [] then 0 else DigitsValue(s[..|s| - 1]) * 10 + (s[|s| - 1] as int - '0' as int)
  }

  /** The decimal form PHP gives a non-negative integer in string context. */
  function Decimal(n: nat): (r: string)
    ensures r != []
    ensures forall i :: 0 <= i < |r| ==> '0' <= r[i] <= '9'
    ensures DigitsValue(r) == n
    ensures r[0] == '0' ==> n == 0
  {
    if n < 10 then [DigitChar(n)]
    else
      var r := Decimal(n / 10) + [DigitChar(n % 10)];
      assert r[..|r| - 1] == Decimal(n / 10);
      r
  }

  // ---------------------------------------------------------------- htmlspecialchars()

  /** The characters that ENT_QUOTES escaping takes out of a string (besides '&'). */
  predicate IsHtmlSpecial(c: char) {
    c == '"' || c == '\'' || c == '<' || c == '>'
  }

  function EscapeChar(c: char): string {
    if c == '&' then "&amp;"
    else if c == '"' then "&quot;"
    else if c == '\'' then "&#039;"
    else if c == '<' then "&lt;"
    else if c == '>' then "&gt;"
    else [c]
  }

  /** `htmlspecialchars($s, ENT_QUOTES, 'UTF-8')` on well-formed text: no quote or angle
      bracket survives, and nothing is lost (see UnescapeEscape). */
  function EscapeHtml(s: string): (r: string)
    ensures |r| >= |s|
    ensures forall i :: 0 <= i < |r| ==> !IsHtmlSpecial(r[i])
  {
    if s == [] then [] else EscapeChar(s[0]) + EscapeHtml(s[1..])
  }

  /** `htmlspecialchars_decode($s, ENT_QUOTES)`: the five entities back to characters. */
  function UnescapeHtml(s: string): string {
    if s == [] then []
    else if |s| >= 5 && s[..5] == "&amp;" then "&" + UnescapeHtml(s[5..])
    else if |s| >= 6 && s[..6] == "&quot;" then "\"" + UnescapeHtml(s[6..])
    else if |s| >= 6 && s[..6] == "&#039;" then "'" + UnescapeHtml(s[6..])
    else if |s| >= 4 && s[..4] == "&lt;" then "<" + UnescapeHtml(s[4..])
    else if |s| >= 4 && s[..4] == "&gt;" then ">" + UnescapeHtml(s[4..])
    else [s[0]] + UnescapeHtml(s[1..])
  }

  lemma {:induction false} UnescapeAfterChar(c: char, t: string)
    ensures UnescapeHtml(EscapeChar(c) + t) == [c] + UnescapeHtml(t)
  {
    if c == '&' {
      UnescapeEntity("&amp;", '&', t);
    } else if c == '"' {
      UnescapeEntity("&quot;", c, t);
    } else if c == '\'' {
      UnescapeEntity("&#039;", c, t);
    } else if c == '<' {
      UnescapeEntity("&lt;", c, t);
    } else if c == '>' {
      UnescapeEntity("&gt;", c, t);
    } else {
      var e := [c] + t;
      assert e[0] == c && e[1..] == t;
    }
  }

  lemma {:induction false} UnescapeEntity(entity: string, c: char, t: string)
    requires (entity, c) in {("&amp;", '&'), ("&quot;", '"'), ("&#039;", '\''), ("&lt;", '<'), ("&gt;", '>')}
    ensures UnescapeHtml(entity + t) == [c] + UnescapeHtml(t)
  {
    var e := entity + t;
    assert e[..|entity|] == entity && e[|entity|..] == t;
    assert e[0] == '&' && e[1] == entity[1];
  }

  /** Escaping loses nothing: decoding the escaped text gives the original back. */
  lemma {:induction false} UnescapeEscape(s: string)
    ensures UnescapeHtml(EscapeHtml(s)) == s
  {
    if s != [] {
      UnescapeAfterChar(s[0], EscapeHtml(s[1..]));
      UnescapeEscape(s[1..]);
    }
  }

  // ---------------------------------------------------------------- strip_tags()

  /** Drops everything up to and including the first '>' (all of it when there is none). */
  function SkipTag(s: string): (r: string)
    ensures |r| <= |s|
  {
    if s == [] then [] else if s[0] == '>' then s[1..] else SkipTag(s[1..])
  }

  /** The characters C's `isspace` accepts: space, tab, LF, vertical tab, form feed, CR. */
  predicate IsSpace(c: char) {
    c == ' ' || c == '\t' || c == '\n' || c == '\U{B}' || c == '\U{C}' || c == '\r'
  }

  /** Text that strip_tags leaves alone: no NUL, and every '<' followed by white space. */
  predicate IsPlainText(s: string) {
    && (forall i :: 0 <= i < |s| ==> s[i] != '\0')
    && (forall i :: 0 <= i < |s| && s[i] == '<' ==> i + 1 < |s| && IsSpace(s[i + 1]))
  }

  /** A simplified `strip_tags()`: a NUL is dropped, a '<' followed by white space is kept
      as text (together with that space), every other `<...>` span is removed, and an
      unclosed '<' removes the rest of the text. */
  function StripTags(s: string): (r: string)
    ensures |r| <= |s|
    ensures IsPlainText(r)
    decreases |s|
  {
    if s == [] then []
    else if s[0] == '\0' then StripTags(s[1..])
    else if s[0] == '<' && |s| > 1 && IsSpace(s[1]) then [s[0], s[1]] + StripTags(s[2..])
    else if s[0] == '<' then StripTags(SkipTag(s[1..]))
    else [s[0]] + StripTags(s[1..])
  }

  /** Text that opens no tag and holds no NUL passes through strip_tags unchanged; so
      stripping twice is stripping once. */
  lemma {:induction false} StripTagsPlainText(s: string)
    requires IsPlainText(s)
    ensures StripTags(s) == s
    decreases |s|
  {
    if s != [] {
      if s[0] == '<' {
        assert IsSpace(s[1]);
        StripTagsPlainText(s[2..]);
        assert s == [s[0], s[1]] + s[2..];
      } else {
        StripTagsPlainText(s[1..]);
        assert s == [s[0]] + s[1..];
      }
    }
  }

  lemma StripTagsIdempotent(s: string)
    ensures StripTags(StripTags(s)) == StripTags(s)
  {
    StripTagsPlainText(StripTags(s));
  }

  /** A comparison in running text survives: "x < 5" keeps its '<'. */
  lemma LessThanKept()
    ensures StripTags("x < 5") == "x < 5"
  {
    var s := "x < 5";
    assert s[0] == 'x' && s[1] == ' ' && s[2] == '<' && s[3] == ' ' && s[4] == '5';
    StripTagsPlainText(s);
  }

  /** A NUL is dropped even from text without tags. */
  lemma NulDropped()
    ensures StripTags("a\0b") == "ab"
  {
    var s := "a\0b";
    assert s[0] == 'a' && s[1] == '\0' && s[2] == 'b';
    assert s[1..][1..] == "b";
    assert StripTags("b") == "b";
  }

  // ---------------------------------------------------------------- UTF-8 bytes

  /** The UTF-8 encoding of one character. */
  function Utf8Char(c: char): (r: seq<byte>)
    ensures 1 <= |r| <= 4
    ensures |r| == 1 <==> (c as int) < 0x80
    ensures |r| == 1 ==> r[0] as int == c as int
    ensures |r| > 1 ==> r[0] >= 0xC0
  {
    var n := c as int;
    if n < 0x80 then [n as byte]
    else if n < 0x800 then [(0xC0 + n / 64) as byte, (0x80 + n % 64) as byte]
    else if n < 0x10000 then
      [(0xE0 + n / 4096) as byte, (0x80 + (n / 64) % 64) as byte, (0x80 + n % 64) as byte]
    else
      [(0xF0 + n / 262144) as byte, (0x80 + (n / 4096) % 64) as byte,
       (0x80 + (n / 64) % 64) as byte, (0x80 + n % 64) as byte]
  }

  /** The bytes PHP's byte-oriented string functions see for a UTF-8 string. */
  function Utf8Encode(s: string): (r: seq<byte>)
    ensures |r| >= |s|
  {
    if s == [] then [] else Utf8Char(s[0]) + Utf8Encode(s[1..])
  }

  predicate IsAscii(s: string) {
    forall i :: 0 <= i < |s| ==> (s[i] as int) < 0x80
  }

  /** On ASCII text one byte is one character. */
  lemma {:induction false} Utf8Ascii(s: string)
    requires IsAscii(s)
    ensures |Utf8Encode(s)| == |s|
    ensures forall i :: 0 <= i < |s| ==> Utf8Encode(s)[i] as int == s[i] as int
  {
    if s != [] {
      Utf8Ascii(s[1..]);
      assert Utf8Encode(s) == Utf8Char(s[0]) + Utf8Encode(s[1..]);
    }
  }

  lemma {:induction false} Utf8Concat(a: string, b: string)
    ensures Utf8Encode(a + b) == Utf8Encode(a) + Utf8Encode(b)
  {
    if a != [] {
      assert (a + b)[0] == a[0] && (a + b)[1..] == a[1..] + b;
      Utf8Concat(a[1..], b);
      calc {
        Utf8Encode(a + b);
        Utf8Char(a[0]) + Utf8Encode(a[1..] + b);
        Utf8Char(a[0]) + (Utf8Encode(a[1..]) + Utf8Encode(b));
        (Utf8Char(a[0]) + Utf8Encode(a[1..])) + Utf8Encode(b);
      }
    } else {
      assert a + b == b;
    }
  }
}
