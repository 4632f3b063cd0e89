/** The .NET string and text-file operations the translation dictionary
    relies on: char.IsWhiteSpace, string.IsNullOrWhiteSpace, Trim,
    Split and Join on one separator character, integer formatting, and
    the line structure of File.ReadAllLines / File.WriteAllLines. */
module Text {

  /* ---------------- white space ---------------- */

  /** char.IsWhiteSpace: the Unicode space, line and paragraph separators
      and the control characters U+0009 to U+000D and U+0085. */
  predicate IsWhiteSpace(c: char) {
    || ('\U{9}' <= c <= '\U{D}') || c == ' ' || c == '\U{85}' || c == '\U{A0}'
    || c == '\U{1680}' || ('\U{2000}' <= c <= '\U{200A}') || c == '\U{2028}' || c == '\U{2029}'
    || c == '\U{202F}' || c == '\U{205F}' || c == '\U{3000}'
  }

  /** string.IsNullOrWhiteSpace of a non-null string. */
  predicate IsBlank(s: string) {
    forall i :: 0 <= i < |s| ==> IsWhiteSpace(s[i])
  }

  function TrimStart(s: string): (r: string)
    ensures |r| <= |s| && r == s[|s| - |r|..]
    ensures r == [] || !IsWhiteSpace(r[0])
    ensures forall i :: 0 <= i < |s| - |r| ==> IsWhiteSpace(s[i])
  {
    if s != [] && IsWhiteSpace(s[0]) then TrimStart(s[1..]) else s
  }

  function TrimEnd(s: string): (r: string)
    ensures |r| <= |s| && r == s[..|r|]
    ensures r == [] || !IsWhiteSpace(r[|r| - 1])
    ensures forall i :: |r| <= i < |s| ==> IsWhiteSpace(s[i])
  {
    if s != [] && IsWhiteSpace(s[|s| - 1]) then TrimEnd(s[..|s| - 1]) else s
  }

  /** string.Trim(): white space removed from both ends. */
  function Trim(s: string): string {
    TrimEnd(TrimStart(s))
  }

  /** A string without white space at either end is its own Trim. */
  lemma TrimmedTrim(s: string)
    requires s == [] || (!IsWhiteSpace(s[0]) && !IsWhiteSpace(s[|s| - 1]))
    ensures Trim(s) == s
  {
  }

  /** A string is blank exactly when Trim leaves nothing of it. */
  lemma BlankTrim(s: string)
    ensures IsBlank(s) <==> Trim(s) == []
  {
  }

  /* ---------------- Length ---------------- */

  /** string.Length: UTF-16 code units, two (a surrogate pair) for a
      character above U+FFFF and one for any other. */
  function Utf16Length(s: string): (n: nat)
    ensures |s| <= n <= 2 * |s|
  {
    if s == [] then 0 else (if (s[0] as int) < 0x1_0000 then 1 else 2) + Utf16Length(s[1..])
  }

  /** Length counts characters exactly when none lies above U+FFFF. */
  lemma {:induction false} Utf16LengthBmp(s: string)
    ensures Utf16Length(s) == |s| <==> forall i :: 0 <= i < |s| ==> (s[i] as int) < 0x1_0000
  {
    if s != [] {
      Utf16LengthBmp(s[1..]);
      assert forall i :: 1 <= i < |s| ==> s[i] == s[1..][i - 1];
    }
  }

  lemma {:induction false} Utf16LengthAppend(a: string, b: string)
    ensures Utf16Length(a + b) == Utf16Length(a) + Utf16Length(b)
  {
    if a == [] {
      assert a + b == b;
    } else {
      assert (a + b)[0] == a[0] && (a + b)[1..] == a[1..] + b;
      Utf16LengthAppend(a[1..], b);
    }
  }

  /* ---------------- Split and Join ---------------- */

  /** string.Split(sep): the pieces between occurrences of `sep`, empty
      pieces included, so there is always at least one. */
  function Split(s: string, sep: char): (parts: seq<string>)
    ensures |parts| >= 1
    ensures forall i :: 0 <= i < |parts| ==> sep !in parts[i]
  {
    if s == [] then [""]
    else if s[0] == sep then [""] + Split(s[1..], sep)
    else
      var rest := Split(s[1..], sep);
      [[s[0]] + rest[0]] + rest[1..]
  }

  /** string.Join(sep, parts). */
  function Join(parts: seq<string>, sep: char): string
    requires |parts| >= 1
  {
    if |parts| == 1 then parts[0] else parts[0] + [sep] + Join(parts[1..], sep)
  }

  lemma JoinFirst(c: char, p: string, ps: seq<string>, sep: char)
    ensures Join([[c] + p] + ps, sep) == [c] + Join([p] + ps, sep)
  {
    assert ([[c] + p] + ps)[1..] == ps == ([p] + ps)[1..];
  }

  /** Joining the pieces of a split gives the string back. */
  lemma {:induction false} JoinSplit(s: string, sep: char)
    ensures Join(Split(s, sep), sep) == s
  {
    if s == [] {
    } else if s[0] == sep {
      JoinSplit(s[1..], sep);
      assert ([""] + Split(s[1..], sep))[1..] == Split(s[1..], sep);
    } else {
      var rest := Split(s[1..], sep);
      JoinSplit(s[1..], sep);
      JoinFirst(s[0], rest[0], rest[1..], sep);
      assert [rest[0]] + rest[1..] == rest;
    }
  }

  /** A piece without the separator, then the separator: the first piece. */
  lemma {:induction false} SplitAfter(a: string, b: string, sep: char)
    requires sep !in a
    ensures Split(a + [sep] + b, sep) == [a] + Split(b, sep)
    ensures Split(a, sep) == [a]
  {
    if a != [] {
      SplitAfter(a[1..], b, sep);
      assert (a + [sep] + b)[1..] == a[1..] + [sep] + b;
      assert [a[0]] + a[1..] == a;
    } else {
      assert a + [sep] + b == [sep] + b;
    }
  }

  /** Splitting what was joined gives the pieces back when none of them
      holds the separator. */
  lemma {:induction false} SplitJoin(parts: seq<string>, sep: char)
    requires |parts| >= 1
    requires forall i :: 0 <= i < |parts| ==> sep !in parts[i]
    ensures Split(Join(parts, sep), sep) == parts
    decreases |parts|
  {
    SplitAfter(parts[0], [], sep);
    if |parts| > 1 {
      SplitJoin(parts[1..], sep);
      SplitAfter(parts[0], Join(parts[1..], sep), sep);
      assert [parts[0]] + parts[1..] == parts;
    }
  }

  /** Joins of pieces that differ in one place only are different. */
  lemma {:induction false} JoinDiffersAt(p: seq<string>, q: seq<string>, k: nat, sep: char)
    requires |p| == |q| && k < |p|
    requires p[k] != q[k] && forall i :: 0 <= i < |p| && i != k ==> p[i] == q[i]
    ensures Join(p, sep) != Join(q, sep)
    decreases k
  {
    if k == 0 {
      if |p| > 1 {
        assert p[1..] == q[1..];
        var rest := [sep] + Join(p[1..], sep);
        assert Join(p, sep) == p[0] + rest && Join(q, sep) == q[0] + rest;
        if |p[0]| == |q[0]| {
          assert Join(p, sep)[..|p[0]|] == p[0] && Join(q, sep)[..|p[0]|] == q[0];
        }
      }
    } else {
      JoinDiffersAt(p[1..], q[1..], k - 1, sep);
      var head := p[0] + [sep];
      assert Join(p, sep) == head + Join(p[1..], sep) && Join(q, sep) == head + Join(q[1..], sep);
      assert Join(p, sep)[|head|..] == Join(p[1..], sep) && Join(q, sep)[|head|..] == Join(q[1..], sep);
    }
  }

  /* ---------------- integers ---------------- */

  function Digit(d: nat): (c: char)
    requires d < 10
    ensures '0' <= c <= '9' && c as int == '0' as int + d
  {
    ('0' as int + d) as char
  }

  /** Int32.ToString() of a non-negative value: decimal digits, no sign, no
      leading zero. */
  function Decimal(n: nat): (r: string)
    ensures |r| >= 1
    ensures forall i :: 0 <= i < |r| ==> '0' <= r[i] <= '9'
    ensures n >= 10 <==> |r| >= 2
  {
    if n < 10 then [Digit(n)] else Decimal(n / 10) + [Digit(n % 10)]
  }

  /** Different numbers are written differently. */
  lemma {:induction false} DecimalInjective(a: nat, b: nat)
    requires Decimal(a) == Decimal(b)
    ensures a == b
  {
    var da := Decimal(a);
    if a >= 10 && b >= 10 {
      var pa, pb := Decimal(a / 10), Decimal(b / 10);
      assert da == pa + [Digit(a % 10)] == pb + [Digit(b % 10)];
      assert pa == da[..|da| - 1] == pb;
      assert Digit(a % 10) == da[|da| - 1] == Digit(b % 10);
      DecimalInjective(a / 10, b / 10);
    } else if a < 10 && b < 10 {
      assert Digit(a) == da[0] == Digit(b);
    }
  }

  /** Int64.ToString(): a minus sign before the digits of a negative value. */
  function IntText(n: int): (r: string)
    ensures n >= 0 ==> r == Decimal(n)
    ensures n < 0 ==> r == "-" + Decimal(-n)
  {
    if n < 0 then "-" + Decimal(-n) else Decimal(n)
  }

  /* ---------------- text files as lines ---------------- */

  predicate IsLineBreak(c: char) {
    c == '\r' || c == '\n'
  }

  predicate HasLineBreak(s: string) {
    exists i :: 0 <= i < |s| && IsLineBreak(s[i])
  }

  /** Environment.NewLine on Windows, which StreamWriter.WriteLine and
      File.WriteAllLines put after every line. */
  const NewLine: string := "\r\n"

  /** The text File.WriteAllLines writes. */
  function WriteAllLines(lines: seq<string>): string {
    if lines == [] then [] else lines[0] + NewLine + WriteAllLines(lines[1..])
  }

  /** Where the first line of `text` ends: the first "\r", "\n" or the end. */
  function LineEnd(text: string): (i: nat)
    ensures i <= |text|
    ensures forall j :: 0 <= j < i ==> !IsLineBreak(text[j])
    ensures i < |text| ==> IsLineBreak(text[i])
  {
    if text == [] || IsLineBreak(text[0]) then 0 else 1 + LineEnd(text[1..])
  }

  /** The line StreamReader.ReadLine returns and what is left after it and
      its terminator ("\r\n", "\r" or "\n"). */
  function NextLine(text: string): (r: (string, string))
    requires text != []
    ensures |r.1| < |text|
  {
    var i := LineEnd(text);
    if i == |text| then (text, [])
    else if text[i] == '\r' && i + 1 < |text| && text[i + 1] == '\n' then (text[..i], text[i + 2..])
    else (text[..i], text[i + 1..])
  }

  /** File.ReadAllLines: every line, without terminators; a final
      terminator does not start another line. */
  function ReadAllLines(text: string): seq<string>
    decreases |text|
  {
    if text == [] then [] else
      var (line, rest) := NextLine(text);
      [line] + ReadAllLines(rest)
  }

  lemma {:induction false} LineEndAt(line: string, rest: string)
    requires !HasLineBreak(line)
    ensures LineEnd(line + NewLine + rest) == |line|
    decreases |line|
  {
    if line != [] {
      assert !IsLineBreak(line[0]);
      assert (line + NewLine + rest)[1..] == line[1..] + NewLine + rest;
      LineEndAt(line[1..], rest);
    }
  }

  /** Lines without a line break read back as written. */
  lemma {:induction false} ReadWriteLines(lines: seq<string>)
    requires forall i :: 0 <= i < |lines| ==> !HasLineBreak(lines[i])
    ensures ReadAllLines(WriteAllLines(lines)) == lines
    decreases |lines|
  {
    if lines != [] {
      var rest := WriteAllLines(lines[1..]);
      var text := lines[0] + NewLine + rest;
      LineEndAt(lines[0], rest);
      assert text[..|lines[0]|] == lines[0] && text[|lines[0]| + 2..] == rest;
      assert NextLine(text) == (lines[0], rest);
      ReadWriteLines(lines[1..]);
      assert [lines[0]] + lines[1..] == lines;
    }
  }
}
